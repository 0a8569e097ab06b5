/** Runs of a deterministic step function: a log is a run when every step in turn is possible. */
module Runs {
  import opened Esp

  function Fold<S, T>(take: (S, T) -> Option<S>, start: S, log: seq<T>): Option<S> {
    if log == [] then Some(start)
    else match Fold(take, start, log[..|log| - 1])
      case None => None
      case Some(s) => take(s, log[|log| - 1])
  }

  /** Every prefix of a run is a run. */
  lemma {:induction false} Prefix<S, T>(take: (S, T) -> Option<S>, start: S, log: seq<T>, n: nat)
    requires n <= |log| && Fold(take, start, log).Some?
    ensures Fold(take, start, log[..n]).Some?
    decreases |log|
  {
    if n < |log| {
      Prefix(take, start, log[..|log| - 1], n);
      assert log[..|log| - 1][..n] == log[..n];
    } else {
      assert log[..n] == log;
    }
  }

  /** The state just before step n is taken, and the step itself. */
  lemma At<S, T>(take: (S, T) -> Option<S>, start: S, log: seq<T>, n: nat) returns (s: S)
    requires n < |log| && Fold(take, start, log).Some?
    ensures Fold(take, start, log[..n]) == Some(s)
    ensures Fold(take, start, log[..n + 1]).Some? && Fold(take, start, log[..n + 1]) == take(s, log[n])
  {
    Prefix(take, start, log, n + 1);
    assert log[..n + 1][..n] == log[..n];
    s := Fold(take, start, log[..n]).value;
  }

  /** A run prolonged by one step. */
  lemma Then<S, T>(take: (S, T) -> Option<S>, start: S, log: seq<T>, step: T)
    ensures Fold(take, start, log + [step])
            == (match Fold(take, start, log) case None => None case Some(s) => take(s, step))
  {
    assert (log + [step])[..|log|] == log;
  }

  /** The log leads to this state. Said of its longest prefix, so that a proof has to ask before
      the definition of a run is unfolded. */
  ghost predicate LeadsTo<S(!new), T(!new)>(take: (S, T) -> Option<S>, start: S, log: seq<T>, s: S) {
    forall n: nat :: n == |log| ==> Fold(take, start, log[..n]) == Some(s)
  }

  lemma LeadsToIsFold<S(!new), T(!new)>(take: (S, T) -> Option<S>, start: S, log: seq<T>, s: S)
    ensures LeadsTo(take, start, log, s) <==> Fold(take, start, log) == Some(s)
  {
    assert log[..|log|] == log;
  }

  lemma LeadsOn<S(!new), T(!new)>(take: (S, T) -> Option<S>, start: S, log: seq<T>, s: S, step: T)
    requires LeadsTo(take, start, log, s) && take(s, step).Some?
    ensures LeadsTo(take, start, log + [step], take(s, step).value)
    ensures log < log + [step]
  {
    LeadsToIsFold(take, start, log, s);
    Then(take, start, log, step);
    LeadsToIsFold(take, start, log + [step], take(s, step).value);
  }

  /** While only certain steps are taken, whatever none of them breaks stays true. */
  lemma {:induction false} Stays<S, T>(
      take: (S, T) -> Option<S>, start: S, log: seq<T>, later: seq<T>, taken: T -> bool, inv: S -> bool)
    requires log <= later && Fold(take, start, log).Some? && Fold(take, start, later).Some?
    requires inv(Fold(take, start, log).value)
    requires forall i :: |log| <= i < |later| ==> taken(later[i])
    requires forall s, step :: inv(s) && taken(step) && take(s, step).Some? ==> inv(take(s, step).value)
    ensures inv(Fold(take, start, later).value)
    decreases |later|
  {
    if |log| < |later| {
      var last := later[|later| - 1];
      Prefix(take, start, later, |later| - 1);
      Stays(take, start, log, later[..|later| - 1], taken, inv);
      assert take(Fold(take, start, later[..|later| - 1]).value, last).Some?;
    } else {
      assert log == later;
    }
  }
}
