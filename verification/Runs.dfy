// Runs of a state machine: sequences of steps that can happen one after the other.

module Runs {
  /** Which steps can happen in a state, and where they lead. */
  datatype Machine<!S, !E> = Machine(enabled: (S, E) -> bool, next: (S, E) -> S)

  ghost predicate IsRun<S, E>(m: Machine<S, E>, s: S, run: seq<E>)
    decreases |run|
  {
    run == [] || (m.enabled(s, run[0]) && IsRun(m, m.next(s, run[0]), run[1..]))
  }

  ghost function After<S, E>(m: Machine<S, E>, s: S, run: seq<E>): S
    requires IsRun(m, s, run)
    decreases |run|
  {
    if run == [] then s else After(m, m.next(s, run[0]), run[1..])
  }

  lemma {:induction false} RunSplit<S, E>(m: Machine<S, E>, s: S, a: seq<E>, b: seq<E>)
    requires IsRun(m, s, a + b)
    ensures IsRun(m, s, a) && IsRun(m, After(m, s, a), b) && After(m, s, a + b) == After(m, After(m, s, a), b)
    decreases |a|
  {
    if a == [] {
      assert a + b == b;
    } else {
      assert (a + b)[1..] == a[1..] + b;
      RunSplit(m, m.next(s, a[0]), a[1..], b);
    }
  }

  lemma {:induction false} RunJoin<S, E>(m: Machine<S, E>, s: S, a: seq<E>, b: seq<E>)
    requires IsRun(m, s, a) && IsRun(m, After(m, s, a), b)
    ensures IsRun(m, s, a + b) && After(m, s, a + b) == After(m, After(m, s, a), b)
    decreases |a|
  {
    if a == [] {
      assert a + b == b;
    } else {
      assert (a + b)[1..] == a[1..] + b;
      RunJoin(m, m.next(s, a[0]), a[1..], b);
    }
  }

  lemma Extended<S, E>(m: Machine<S, E>, s: S, run: seq<E>, e: E) returns (longer: seq<E>)
    requires IsRun(m, s, run) && m.enabled(After(m, s, run), e)
    ensures longer == run + [e] && IsRun(m, s, longer) && After(m, s, longer) == m.next(After(m, s, run), e)
  {
    longer := run + [e];
    var t := After(m, s, run);
    assert [e][1..] == [] && After(m, t, [e]) == m.next(t, e);
    RunJoin(m, s, run, [e]);
  }

  ghost predicate Kept<S(!new), E(!new)>(m: Machine<S, E>, inv: S -> bool) {
    forall s, e {:trigger m.next(s, e)} :: inv(s) && m.enabled(s, e) ==> inv(m.next(s, e))
  }

  /** What every step keeps, every run keeps. */
  lemma {:induction false} InvariantHolds<S(!new), E(!new)>(m: Machine<S, E>, inv: S -> bool, s: S, run: seq<E>)
    requires Kept(m, inv) && inv(s) && IsRun(m, s, run)
    ensures inv(After(m, s, run))
    decreases |run|
  {
    if run != [] {
      assert inv(m.next(s, run[0]));
      InvariantHolds(m, inv, m.next(s, run[0]), run[1..]);
    }
  }
}
