/**
  The poll-until-deadline loop that every correlator in the test suite
  repeats. Wall-clock time is replaced by the finite sequence of snapshots
  the loop fetches before its deadline passes: one element per iteration.
  What one iteration decides is a pure `Step` over its snapshot.
 */
module Polling {
  import opened PyJson

  /**
    What one loop iteration does with its snapshot.
    Hit: return the value. Fail: an uncaught exception leaves the loop.
    Miss: no match, so sleep (and, in some variants, trigger the experiment
    loader) before polling again. Retry: `continue` at once, with no sleep.
   */
  datatype Step<+T> = Hit(value: T) | Miss | Retry | Fail(error: PyError) {
    predicate Decisive() {
      Hit? || Fail?
    }
  }

  /** How a poll loop ends: a returned value, the deadline (`return False`), or an exception. */
  datatype Verdict<+T> = Found(value: T) | NotFound | Raised(error: PyError)

  /** Index of the first decisive step, or the number of steps when there is none. */
  function FirstDecisive<T>(steps: seq<Step<T>>): (k: nat)
    ensures k <= |steps|
    ensures forall j :: 0 <= j < k ==> !steps[j].Decisive()
    ensures k < |steps| ==> steps[k].Decisive()
  {
    if steps == [] then 0
    else if steps[0].Decisive() then 0
    else 1 + FirstDecisive(steps[1..])
  }

  /** The verdict a loop reaches over `steps`: that of the first decisive step, else NotFound. */
  function Settle<T>(steps: seq<Step<T>>): Verdict<T> {
    var k := FirstDecisive(steps);
    if k == |steps| then NotFound
    else if steps[k].Hit? then Found(steps[k].value)
    else Raised(steps[k].error)
  }

  /** Number of Miss steps, i.e. of sleeps the loop performs over `steps`. */
  function Misses<T>(steps: seq<Step<T>>): nat {
    if steps == [] then 0
    else Misses(steps[..|steps| - 1]) + (if steps[|steps| - 1].Miss? then 1 else 0)
  }

  /** The steps a loop takes over its snapshots. */
  function Steps<S, T>(snapshots: seq<S>, step: S -> Step<T>): (r: seq<Step<T>>)
    ensures |r| == |snapshots|
    ensures forall i :: 0 <= i < |snapshots| ==> r[i] == step(snapshots[i])
  {
    seq(|snapshots|, i requires 0 <= i < |snapshots| => step(snapshots[i]))
  }

  /** Sleeps performed before the loop stops. */
  function SleepsBeforeVerdict<T>(steps: seq<Step<T>>): nat {
    Misses(steps[..FirstDecisive(steps)])
  }

  lemma FirstDecisiveAt<T>(steps: seq<Step<T>>, k: nat)
    requires k < |steps| && steps[k].Decisive()
    requires forall j :: 0 <= j < k ==> !steps[j].Decisive()
    ensures FirstDecisive(steps) == k
  {
  }

  /**
    One poll loop: fetch the next snapshot, decide, and either return or
    go round again. Proved to end exactly as `Settle` says, after the sleeps
    `SleepsBeforeVerdict` counts.
   */
  method Poll<S, T>(snapshots: seq<S>, step: S -> Step<T>) returns (v: Verdict<T>, sleeps: nat)
    ensures v == Settle(Steps(snapshots, step))
    ensures sleeps == SleepsBeforeVerdict(Steps(snapshots, step))
  {
    ghost var steps := Steps(snapshots, step);
    var i := 0;
    sleeps := 0;
    while i < |snapshots|
      invariant 0 <= i <= |snapshots|
      invariant forall j :: 0 <= j < i ==> !steps[j].Decisive()
      invariant sleeps == Misses(steps[..i])
    {
      assert steps[..i + 1][..i] == steps[..i];
      match step(snapshots[i]) {
        case Hit(x) =>
          FirstDecisiveAt(steps, i);
          return Found(x), sleeps;
        case Fail(e) =>
          FirstDecisiveAt(steps, i);
          return Raised(e), sleeps;
        case Miss =>
          sleeps := sleeps + 1;
        case Retry =>
      }
      i := i + 1;
    }
    assert steps[..i] == steps;
    v := NotFound;
  }

  /** A loop that polls one unchanging snapshot `n` times ends as its first iteration does, or sleeps `n` times. */
  lemma {:induction false} RepeatedStep<T>(s: Step<T>, n: nat)
    ensures Settle(seq(n, _ => s)) == (if n == 0 || !s.Decisive() then NotFound
                                      else if s.Hit? then Found(s.value) else Raised(s.error))
    ensures SleepsBeforeVerdict(seq(n, _ => s)) == (if s.Miss? then n else 0)
  {
    var steps := seq(n, _ => s);
    if n > 0 {
      RepeatedStep(s, n - 1);
      var shorter := seq(n - 1, _ => s);
      assert steps[..n - 1] == shorter;
      if s.Decisive() {
        FirstDecisiveAt(steps, 0);
      } else {
        assert steps[1..] == shorter;
        assert FirstDecisive(steps) == n;
        assert steps[..n] == steps;
        assert shorter[..n - 1] == shorter;
      }
    }
  }

  /** Polls of snapshots that never match end with NotFound after one sleep per poll. */
  lemma {:induction false} AllMisses<T>(steps: seq<Step<T>>)
    requires forall i :: 0 <= i < |steps| ==> steps[i].Miss?
    ensures Settle(steps) == NotFound
    ensures SleepsBeforeVerdict(steps) == |steps|
  {
    if steps != [] {
      AllMisses(steps[..|steps| - 1]);
      AllMisses(steps[1..]);
      var k := FirstDecisive(steps);
      assert k == |steps|;
      assert steps[..k] == steps;
      assert steps[..|steps| - 1][..|steps| - 1] == steps[..|steps| - 1];
    }
  }
}
