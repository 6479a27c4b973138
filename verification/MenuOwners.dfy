/** Who owns an entry in the finished tree, and whether that entry is enabled when the owned one is. */
module MenuOwners {
  import opened Expressions
  import opened Elimination
  import opened Comparing
  import opened MenuForest
  import opened MenuDependencies
  import opened MenuTree

  /** Entry p is not ruled out, or its symbol is set. */
  ghost predicate Enabled(info: Info, c: Conditions, env: Env, p: Id) {
    On(info, c, env, p) || (p in info.sym && SymValue(env, info.sym[p]) != NO)
  }

  /** Every entry of f that is not ruled out has an enabled owner: `on` tells this for the owner of f. */
  ghost predicate Owned(info: Info, c: Conditions, env: Env, on: bool, f: Forest)
    decreases f
  {
    f.Node? ==>
      && (On(info, c, env, f.id) ==> on)
      && Owned(info, c, env, Enabled(info, c, env, f.id), f.kids)
      && Owned(info, c, env, on, f.rest)
  }

  /** What soundness of one adoption needs: logical symbols, typed guards, and no NOT on `mod`. */
  ghost predicate Fit(info: Info, c: Conditions, env: Env) {
    && Sane(env) && (forall x :: x in info.sym ==> IsLogical(info.sym[x]))
    && forall x: Id :: TypedOpt(Guard(info, c, x)) && (Guard(info, c, x).Some? ==> NotsDefinite(env, Guard(info, c, x).value))
  }

  /** An entry with a prompt only takes entries that need it. */
  lemma TakesSound(info: Info, c: Conditions, env: Env, m: Id, k: Id)
    requires Fit(info, c, env) && Takes(info, c, m, k) && m in info.prompt && On(info, c, env, k)
    ensures Enabled(info, c, env, m)
  {
    AdoptionSound(env, Guard(info, c, k), Guard(info, c, m), info.sym[m]);
  }

  // ---------------------------------------------------------------- relayed entries

  /** An entry that can take siblings: it has a symbol and no submenu. */
  predicate Adopter(info: Info, f: Forest) { f.Node? && f.kids.Nil? && f.id in info.sym }

  /** No entry with a prompt takes an entry without one that has itself taken something. */
  ghost predicate RelayFree(info: Info, c: Conditions, m: Id, kids: Forest, rest: Forest)
    decreases Count(kids) + Count(rest), 2
  {
    if kids.Node? then RelayFreeList(info, c, kids)
    else m in info.sym ==> RelayFreeTaken(info, c, m, rest)
  }

  ghost predicate RelayFreeList(info: Info, c: Conditions, f: Forest)
    decreases Count(f), 1
  {
    f.Node? ==>
      && RelayFree(info, c, f.id, f.kids, f.rest)
      && RelayFreeList(info, c, Finalized(info, c, f.id, f.kids, f.rest).1)
  }

  ghost predicate RelayFreeTaken(info: Info, c: Conditions, m: Id, f: Forest)
    decreases Count(f), 1
  {
    f.Node? && Takes(info, c, m, f.id) ==>
      var (k, left) := Finalized(info, c, f.id, f.kids, f.rest);
      && (m in info.prompt && f.id !in info.prompt && f.kids.Nil? ==> k.Nil?)
      && RelayFree(info, c, f.id, f.kids, f.rest) && RelayFreeTaken(info, c, m, left)
  }

  // ---------------------------------------------------------------- without relays every owner is enabled

  lemma {:induction false} OwnedMonotonic(info: Info, c: Conditions, env: Env, a: bool, b: bool, f: Forest)
    requires Owned(info, c, env, a, f) && (a ==> b)
    ensures Owned(info, c, env, b, f)
  {
    if f.Node? { OwnedMonotonic(info, c, env, a, b, f.rest); }
  }

  /** A list before it is flattened, for the owner it gets. */
  ghost predicate Grown(info: Info, c: Conditions, env: Env, on: bool, f: Forest) {
    f.Node? ==>
      && (On(info, c, env, f.id) ==> on) && Flat(info, f.kids)
      && Owned(info, c, env, if f.id in info.prompt then Enabled(info, c, env, f.id) else on, f.kids)
      && Grown(info, c, env, on, f.rest)
  }

  lemma {:induction false} GrownAppend(info: Info, c: Conditions, env: Env, on: bool, f: Forest, g: Forest)
    requires Owned(info, c, env, on, f) && Flat(info, f) && Grown(info, c, env, on, g)
    ensures Grown(info, c, env, on, Append(f, g))
  {
    if f.Node? { GrownAppend(info, c, env, on, f.rest, g); }
  }

  lemma {:induction false} FlattenedOwned(info: Info, c: Conditions, env: Env, on: bool, f: Forest)
    requires Grown(info, c, env, on, f)
    ensures Owned(info, c, env, on, Flattened(info, f))
    decreases Count(f)
  {
    if f.Node? {
      if f.kids.Node? && f.id !in info.prompt {
        AppendFacts(f.kids, f.rest);
        GrownAppend(info, c, env, on, f.kids, f.rest);
        FlattenedOwned(info, c, env, on, Append(f.kids, f.rest));
      } else {
        FlattenedOwned(info, c, env, on, f.rest);
      }
    }
  }

  /** The siblings left over keep what was known about them. */
  lemma {:induction false} ImpliedTail(info: Info, c: Conditions, env: Env, above: bool, f: Forest, t: Forest)
    requires Implied(info, c, env, above, f) && TailOf(t, f)
    ensures Implied(info, c, env, above, t)
  {
    if t != f { ImpliedTail(info, c, env, above, f.rest, t); }
  }

  /** Who owns what m gets: m itself if it has a prompt, otherwise whoever m belongs to. */
  ghost function OwnerOn(info: Info, c: Conditions, env: Env, above: bool, m: Id, kids: Forest): bool {
    if m in info.prompt then Enabled(info, c, env, m) else if kids.Node? then On(info, c, env, m) else above
  }

  lemma {:induction false} OwnersFinalized(info: Info, c: Conditions, env: Env, above: bool, m: Id, kids: Forest, rest: Forest)
    requires Fit(info, c, env) && Implied(info, c, env, above, Node(m, kids, rest)) && RelayFree(info, c, m, kids, rest)
    ensures Owned(info, c, env, OwnerOn(info, c, env, above, m, kids), Finalized(info, c, m, kids, rest).0)
    decreases Count(kids) + Count(rest), 2
  {
    if kids.Node? {
      var on := On(info, c, env, m);
      OwnersList(info, c, env, on, kids);
      FlattenedOwned(info, c, env, on, FinalizedList(info, c, kids));
      OwnedMonotonic(info, c, env, on, OwnerOn(info, c, env, above, m, kids), Flattened(info, FinalizedList(info, c, kids)));
    } else if m in info.sym {
      OwnersTaken(info, c, env, above, m, rest);
      FlattenedOwned(info, c, env, OwnerOn(info, c, env, above, m, kids), FinalizedTaken(info, c, m, rest).0);
    }
  }

  lemma {:induction false} OwnersList(info: Info, c: Conditions, env: Env, above: bool, f: Forest)
    requires Fit(info, c, env) && Implied(info, c, env, above, f) && RelayFreeList(info, c, f)
    ensures Grown(info, c, env, above, FinalizedList(info, c, f))
    decreases Count(f), 1
  {
    if f.Node? {
      var (k, left) := Finalized(info, c, f.id, f.kids, f.rest);
      OwnersFinalized(info, c, env, above, f.id, f.kids, f.rest);
      FinalizedFlat(info, c, f.id, f.kids, f.rest);
      FinalizedTail(info, c, f.id, f.kids, f.rest);
      ImpliedTail(info, c, env, above, f.rest, left);
      OwnersList(info, c, env, above, left);
      if f.id !in info.prompt { OwnedMonotonic(info, c, env, OwnerOn(info, c, env, above, f.id, f.kids), above, k); }
    }
  }

  lemma {:induction false} OwnersTaken(info: Info, c: Conditions, env: Env, above: bool, m: Id, f: Forest)
    requires Fit(info, c, env) && Implied(info, c, env, above, f) && RelayFreeTaken(info, c, m, f) && m in info.sym
    ensures Grown(info, c, env, if m in info.prompt then Enabled(info, c, env, m) else above, FinalizedTaken(info, c, m, f).0)
    decreases Count(f), 1
  {
    if f.Node? && Takes(info, c, m, f.id) {
      var on := if m in info.prompt then Enabled(info, c, env, m) else above;
      var (k, left) := Finalized(info, c, f.id, f.kids, f.rest);
      if m in info.prompt && On(info, c, env, f.id) { TakesSound(info, c, env, m, f.id); }
      OwnersFinalized(info, c, env, above, f.id, f.kids, f.rest);
      FinalizedFlat(info, c, f.id, f.kids, f.rest);
      FinalizedTail(info, c, f.id, f.kids, f.rest);
      ImpliedTail(info, c, env, above, f.rest, left);
      OwnersTaken(info, c, env, above, m, left);
      if f.id !in info.prompt && k.Node? { OwnedMonotonic(info, c, env, OwnerOn(info, c, env, above, f.id, f.kids), on, k); }
    }
  }
}
