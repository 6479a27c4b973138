/** Runs of a protocol: sequences of steps, each possible where it is taken. */
module Runs {
  /** Which steps are possible in a state, and what they do. */
  datatype Machine<!S, !E> = Machine(enabled: (S, E) -> bool, after: (S, E) -> S)

  predicate IsRun<S, E>(m: Machine<S, E>, s: S, events: seq<E>)
    decreases |events|
  {
    events == [] || (m.enabled(s, events[0]) && IsRun(m, m.after(s, events[0]), events[1..]))
  }

  function Outcome<S, E>(m: Machine<S, E>, s: S, events: seq<E>): S
    decreases |events|
  {
    if events == [] then s else Outcome(m, m.after(s, events[0]), events[1..])
  }

  ghost predicate Reaches<S, E(!new)>(m: Machine<S, E>, s: S, t: S) {
    exists events :: IsRun(m, s, events) && Outcome(m, s, events) == t
  }

  lemma {:induction false} RunAppend<S, E>(m: Machine<S, E>, s: S, a: seq<E>, b: seq<E>)
    requires IsRun(m, s, a) && IsRun(m, Outcome(m, s, a), b)
    ensures IsRun(m, s, a + b) && Outcome(m, s, a + b) == Outcome(m, Outcome(m, s, a), b)
    decreases |a|
  {
    if a == [] {
      assert a + b == b;
    } else {
      assert (a + b)[1..] == a[1..] + b;
      RunAppend(m, m.after(s, a[0]), a[1..], b);
    }
  }

  lemma ReachesThrough<S, E(!new)>(m: Machine<S, E>, s: S, t: S, u: S)
    requires Reaches(m, s, t) && Reaches(m, t, u)
    ensures Reaches(m, s, u)
  {
    var a :| IsRun(m, s, a) && Outcome(m, s, a) == t;
    var b :| IsRun(m, t, b) && Outcome(m, t, b) == u;
    RunAppend(m, s, a, b);
  }

  lemma ReachesSame<S, E(!new)>(m: Machine<S, E>, s: S)
    ensures Reaches(m, s, s)
  {
    assert IsRun(m, s, []) && Outcome(m, s, []) == s;
  }

  /** One more step of a run from `start`. */
  lemma ReachesNext<S, E(!new)>(m: Machine<S, E>, start: S, s: S, e: E)
    requires Reaches(m, start, s) && m.enabled(s, e)
    ensures Reaches(m, start, m.after(s, e))
  {
    var t := m.after(s, e);
    assert [e][1..] == [] && IsRun(m, t, []);
    assert IsRun(m, s, [e]) && Outcome(m, s, [e]) == Outcome(m, t, []) == t;
    ReachesThrough(m, start, s, t);
  }
}
