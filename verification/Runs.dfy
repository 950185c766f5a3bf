/** Runs of a state machine, given by its partial step function. */
module Runs {
  import opened Basics

  /** The state that `run` leads to from `s`, if all its steps are possible. */
  ghost function After<S, A>(next: (S, A) -> Option<S>, s: S, run: seq<A>): (r: Option<S>)
    decreases |run|
  {
    if run == [] then Some(s)
    else
      var t := After(next, s, run[..|run| - 1]);
      if t.None? then None else next(t.value, run[|run| - 1])
  }

  lemma AfterOneMore<S, A>(next: (S, A) -> Option<S>, s: S, run: seq<A>, t: S, a: A)
    requires After(next, s, run) == Some(t)
    ensures After(next, s, run + [a]) == next(t, a)
  {
    assert (run + [a])[..|run|] == run;
  }

  lemma {:induction false} AfterJoined<S, A>(next: (S, A) -> Option<S>, s: S, run: seq<A>, t: S, more: seq<A>)
    requires After(next, s, run) == Some(t)
    ensures After(next, s, run + more) == After(next, t, more)
    decreases |more|
  {
    if more == [] {
      assert run + more == run;
    } else {
      var front := more[..|more| - 1];
      AfterJoined(next, s, run, t, front);
      assert (run + more)[..|run + more| - 1] == run + front;
    }
  }

  /** What holds at first and is kept by every step holds after every run. */
  lemma {:induction false} InvariantHolds<S(!new), A(!new)>(next: (S, A) -> Option<S>, inv: S -> bool, s0: S,
                                                         run: seq<A>, s: S)
    requires inv(s0) && After(next, s0, run) == Some(s)
    requires forall t, a | inv(t) && next(t, a).Some? :: inv(next(t, a).value)
    ensures inv(s)
    decreases |run|
  {
    if run != [] {
      var front := run[..|run| - 1];
      InvariantHolds(next, inv, s0, front, After(next, s0, front).value);
    }
  }
}
