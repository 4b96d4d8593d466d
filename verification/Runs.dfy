/** Schedules of a step system. A step system is a total step function that leaves the state alone when
    an action is not enabled, so every sequence of actions is a schedule. */
module Runs {

  function Exec<S, A>(step: (S, A) -> S, s: S, schedule: seq<A>): S {
    if schedule == [] then s
    else step(Exec(step, s, schedule[..|schedule| - 1]), schedule[|schedule| - 1])
  }

  /** Some schedule leads from s to t. */
  ghost predicate Reaches<S(!new), A(!new)>(step: (S, A) -> S, s: S, t: S) {
    exists schedule :: Exec(step, s, schedule) == t
  }

  lemma ReachesItself<S(!new), A(!new)>(step: (S, A) -> S, s: S)
    ensures Reaches(step, s, s)
  {
    assert Exec(step, s, []) == s;
  }

  lemma ReachesStep<S(!new), A(!new)>(step: (S, A) -> S, s: S, m: S, a: A)
    requires Reaches(step, s, m)
    ensures Reaches(step, s, step(m, a))
  {
    var before :| Exec(step, s, before) == m;
    assert (before + [a])[..|before|] == before;
    assert Exec(step, s, before + [a]) == step(m, a);
  }

  lemma {:induction false} ExecConcat<S, A>(step: (S, A) -> S, s: S, a: seq<A>, b: seq<A>)
    ensures Exec(step, s, a + b) == Exec(step, Exec(step, s, a), b)
  {
    if b == [] {
      assert a + b == a;
    } else {
      assert (a + b)[..|a + b| - 1] == a + b[..|b| - 1];
      ExecConcat(step, s, a, b[..|b| - 1]);
    }
  }

  lemma ReachesConcat<S(!new), A(!new)>(step: (S, A) -> S, s: S, m: S, t: S)
    requires Reaches(step, s, m) && Reaches(step, m, t)
    ensures Reaches(step, s, t)
  {
    var a :| Exec(step, s, a) == m;
    var b :| Exec(step, m, b) == t;
    ExecConcat(step, s, a, b);
  }

  lemma ExecThree<S, A>(step: (S, A) -> S, s: S, a: A, b: A, c: A)
    ensures Exec(step, s, [a, b, c]) == step(step(step(s, a), b), c)
  {
    assert [a, b, c][..2] == [a, b] && [a, b][..1] == [a] && [a][..0] == [];
    assert Exec(step, s, [a]) == step(s, a);
    assert Exec(step, s, [a, b]) == step(step(s, a), b);
  }
}
