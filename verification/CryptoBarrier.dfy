/** The worker pool of the crypto checker, in every interleaving: a channel of tokens bounds the
    workers and, filled to the brim at the end, waits for them (internal/semantic/crypto/crypto.go). */
module CryptoBarrier {
  import opened Findings

  /** A worker before its turn at the mutex, inside it, after it, and after its deferred token
      release. */
  datatype Worker = Waiting | Locked | Unlocked | Exited

  /** The main routine launching worker n next, filling the channel for the n-th time, or back
      with its result. */
  datatype Main = Launching(n: nat) | Draining(n: nat) | Returned

  datatype State = State(main: Main, tokens: nat, workers: seq<Worker>, out: seq<Finding>)

  datatype Step = Advance | Lock(k: nat) | Append(k: nat) | Release(k: nat)

  const START := State(Launching(0), 0, [], [])

  predicate MutexFree(s: State) {
    forall k | 0 <= k < |s.workers| :: s.workers[k] != Locked
  }

  /** checks[k] is what the check of surface k returns; width is the channel's capacity. */
  function Next(checks: seq<seq<Finding>>, width: nat, s: State, step: Step): Option<State> {
    match step
    case Advance =>
      (match s.main
       case Launching(n) =>
         if n >= |checks| then Some(s.(main := Draining(0)))
         else if s.tokens < width then
           Some(s.(main := Launching(n + 1), tokens := s.tokens + 1, workers := s.workers + [Waiting]))
         else None
       case Draining(n) =>
         if n >= width then Some(s.(main := Returned))
         else if s.tokens < width then Some(s.(main := Draining(n + 1), tokens := s.tokens + 1))
         else None
       case Returned => None)
    case Lock(k) =>
      if k < |s.workers| && s.workers[k] == Waiting && MutexFree(s) then
        Some(s.(workers := s.workers[k := Locked]))
      else None
    case Append(k) =>
      if k < |s.workers| && k < |checks| && s.workers[k] == Locked then
        Some(s.(workers := s.workers[k := Unlocked], out := s.out + checks[k]))
      else None
    case Release(k) =>
      if k < |s.workers| && s.workers[k] == Unlocked && s.tokens > 0 then
        Some(s.(workers := s.workers[k := Exited], tokens := s.tokens - 1))
      else None
  }

  function Run(checks: seq<seq<Finding>>, width: nat, steps: seq<Step>): Option<State> {
    if steps == [] then Some(START)
    else
      var before := Run(checks, width, steps[..|steps| - 1]);
      if before == None then None else Next(checks, width, before.value, steps[|steps| - 1])
  }

  function Running(workers: seq<Worker>): nat {
    if workers == [] then 0
    else Running(workers[..|workers| - 1]) + if workers[|workers| - 1] != Exited then 1 else 0
  }

  /** The findings of the surfaces whose worker has passed the mutex. */
  function Collected(checks: seq<seq<Finding>>, workers: seq<Worker>): multiset<Finding>
    requires |workers| <= |checks|
  {
    if workers == [] then multiset{}
    else
      var last := |workers| - 1;
      Collected(checks, workers[..last]) +
      if workers[last] in {Unlocked, Exited} then multiset(checks[last]) else multiset{}
  }

  function AllOf(checks: seq<seq<Finding>>): multiset<Finding> {
    if checks == [] then multiset{} else AllOf(checks[..|checks| - 1]) + multiset(checks[|checks| - 1])
  }

  function Drained(s: State, width: nat): nat {
    match s.main
    case Launching(_) => 0
    case Draining(n) => n
    case Returned => width
  }

  ghost predicate Inv(checks: seq<seq<Finding>>, width: nat, s: State) {
    && |s.workers| <= |checks|
    && (s.main.Launching? ==> s.main.n == |s.workers|)
    && (!s.main.Launching? ==> |s.workers| == |checks|)
    && s.tokens == Running(s.workers) + Drained(s, width)
    && s.tokens <= width
    && multiset(s.out) == Collected(checks, s.workers)
    && (forall i, j | 0 <= i < j < |s.workers| :: !(s.workers[i] == Locked && s.workers[j] == Locked))
  }

  lemma {:induction false} RunningUpdate(workers: seq<Worker>, k: nat, w: Worker)
    requires k < |workers|
    ensures Running(workers[k := w]) + (if workers[k] != Exited then 1 else 0)
         == Running(workers) + if w != Exited then 1 else 0
  {
    var last := |workers| - 1;
    if k < last {
      RunningUpdate(workers[..last], k, w);
      assert workers[k := w][..last] == workers[..last][k := w];
    } else {
      assert workers[k := w][..last] == workers[..last];
    }
  }

  predicate Passed(w: Worker) {
    w == Unlocked || w == Exited
  }

  lemma {:induction false} CollectedUpdate(checks: seq<seq<Finding>>, workers: seq<Worker>, k: nat, w: Worker)
    requires k < |workers| <= |checks|
    ensures Passed(w) == Passed(workers[k]) ==> Collected(checks, workers[k := w]) == Collected(checks, workers)
    ensures Passed(w) && !Passed(workers[k]) ==>
      Collected(checks, workers[k := w]) == Collected(checks, workers) + multiset(checks[k])
  {
    var last := |workers| - 1;
    if k < last {
      CollectedUpdate(checks, workers[..last], k, w);
      assert workers[k := w][..last] == workers[..last][k := w];
    } else {
      assert workers[k := w][..last] == workers[..last];
    }
  }

  lemma AdvanceKeepsInv(checks: seq<seq<Finding>>, width: nat, s: State)
    requires Inv(checks, width, s) && Next(checks, width, s, Advance).Some?
    ensures Inv(checks, width, Next(checks, width, s, Advance).value)
  {
    assert (s.workers + [Waiting])[..|s.workers|] == s.workers;
  }

  lemma LockKeepsInv(checks: seq<seq<Finding>>, width: nat, s: State, k: nat)
    requires Inv(checks, width, s) && Next(checks, width, s, Lock(k)).Some?
    ensures Inv(checks, width, Next(checks, width, s, Lock(k)).value)
  {
    RunningUpdate(s.workers, k, Locked);
    CollectedUpdate(checks, s.workers, k, Locked);
  }

  lemma AppendKeepsInv(checks: seq<seq<Finding>>, width: nat, s: State, k: nat)
    requires Inv(checks, width, s) && Next(checks, width, s, Append(k)).Some?
    ensures Inv(checks, width, Next(checks, width, s, Append(k)).value)
  {
    RunningUpdate(s.workers, k, Unlocked);
    CollectedUpdate(checks, s.workers, k, Unlocked);
  }

  lemma ReleaseKeepsInv(checks: seq<seq<Finding>>, width: nat, s: State, k: nat)
    requires Inv(checks, width, s) && Next(checks, width, s, Release(k)).Some?
    ensures Inv(checks, width, Next(checks, width, s, Release(k)).value)
  {
    RunningUpdate(s.workers, k, Exited);
    CollectedUpdate(checks, s.workers, k, Exited);
  }

  lemma StepKeepsInv(checks: seq<seq<Finding>>, width: nat, s: State, step: Step)
    requires Inv(checks, width, s) && Next(checks, width, s, step).Some?
    ensures Inv(checks, width, Next(checks, width, s, step).value)
  {
    match step {
      case Advance => AdvanceKeepsInv(checks, width, s);
      case Lock(k) => LockKeepsInv(checks, width, s, k);
      case Append(k) => AppendKeepsInv(checks, width, s, k);
      case Release(k) => ReleaseKeepsInv(checks, width, s, k);
    }
  }

  lemma {:induction false} InvOnEveryRun(checks: seq<seq<Finding>>, width: nat, steps: seq<Step>)
    requires Run(checks, width, steps).Some?
    ensures Inv(checks, width, Run(checks, width, steps).value)
  {
    if steps != [] {
      var last := |steps| - 1;
      InvOnEveryRun(checks, width, steps[..last]);
      StepKeepsInv(checks, width, Run(checks, width, steps[..last]).value, steps[last]);
    }
  }

  /** At no point of any run do more than width workers run. */
  lemma AtMostWidthWorkers(checks: seq<seq<Finding>>, width: nat, steps: seq<Step>)
    requires Run(checks, width, steps).Some?
    ensures Running(Run(checks, width, steps).value.workers) <= width
  {
    InvOnEveryRun(checks, width, steps);
  }

  lemma {:induction false} NoneRunning(workers: seq<Worker>)
    requires Running(workers) == 0
    ensures forall k | 0 <= k < |workers| :: workers[k] == Exited
  {
    if workers != [] {
      NoneRunning(workers[..|workers| - 1]);
    }
  }

  lemma {:induction false} AllCollected(checks: seq<seq<Finding>>, workers: seq<Worker>)
    requires |workers| <= |checks| && forall k | 0 <= k < |workers| :: workers[k] == Exited
    ensures Collected(checks, workers) == AllOf(checks[..|workers|])
  {
    if workers != [] {
      var last := |workers| - 1;
      AllCollected(checks, workers[..last]);
      assert checks[..|workers|][..last] == checks[..last];
    }
  }

  /** When the main routine returns, every worker has exited and the result holds the findings
      of all surfaces, each as often as its check returned it. */
  lemma ReturnWaitsForEveryWorker(checks: seq<seq<Finding>>, width: nat, steps: seq<Step>)
    requires Run(checks, width, steps).Some? && Run(checks, width, steps).value.main == Returned
    ensures var s := Run(checks, width, steps).value;
      && |s.workers| == |checks|
      && (forall k | 0 <= k < |s.workers| :: s.workers[k] == Exited)
      && multiset(s.out) == AllOf(checks)
  {
    InvOnEveryRun(checks, width, steps);
    var s := Run(checks, width, steps).value;
    NoneRunning(s.workers);
    AllCollected(checks, s.workers);
    assert checks[..|checks|] == checks;
  }

  /** Before that some step can always be taken. */
  lemma NeverStuck(checks: seq<seq<Finding>>, width: nat, steps: seq<Step>) returns (step: Step)
    requires width > 0
    requires Run(checks, width, steps).Some? && Run(checks, width, steps).value.main != Returned
    ensures Next(checks, width, Run(checks, width, steps).value, step).Some?
  {
    InvOnEveryRun(checks, width, steps);
    var s := Run(checks, width, steps).value;
    if k :| 0 <= k < |s.workers| && s.workers[k] == Locked {
      step := Append(k);
    } else if k :| 0 <= k < |s.workers| && s.workers[k] == Unlocked {
      SomeoneRuns(s.workers, k);
      step := Release(k);
    } else if k :| 0 <= k < |s.workers| && s.workers[k] == Waiting {
      step := Lock(k);
    } else {
      AllExited(s.workers);
      step := Advance;
    }
  }

  lemma {:induction false} SomeoneRuns(workers: seq<Worker>, k: nat)
    requires k < |workers| && workers[k] != Exited
    ensures Running(workers) > 0
  {
    if k < |workers| - 1 {
      SomeoneRuns(workers[..|workers| - 1], k);
    }
  }

  lemma {:induction false} AllExited(workers: seq<Worker>)
    requires forall k | 0 <= k < |workers| :: workers[k] == Exited
    ensures Running(workers) == 0
  {
    if workers != [] {
      AllExited(workers[..|workers| - 1]);
    }
  }

  // ---- Every run ends -------------------------------------------------------------------------

  function StepsLeft(w: Worker): nat {
    match w
    case Waiting => 3
    case Locked => 2
    case Unlocked => 1
    case Exited => 0
  }

  function WorkLeft(workers: seq<Worker>): nat {
    if workers == [] then 0 else WorkLeft(workers[..|workers| - 1]) + StepsLeft(workers[|workers| - 1])
  }

  function Remaining(checks: seq<seq<Finding>>, width: nat, s: State): nat
    requires |s.workers| <= |checks|
  {
    WorkLeft(s.workers) + 4 * (|checks| - |s.workers|) +
    match s.main
    case Launching(_) => width + 2
    case Draining(n) => if n <= width then width - n + 1 else 0
    case Returned => 0
  }

  lemma {:induction false} WorkUpdate(workers: seq<Worker>, k: nat, w: Worker)
    requires k < |workers|
    ensures WorkLeft(workers[k := w]) + StepsLeft(workers[k]) == WorkLeft(workers) + StepsLeft(w)
  {
    var last := |workers| - 1;
    if k < last {
      WorkUpdate(workers[..last], k, w);
      assert workers[k := w][..last] == workers[..last][k := w];
    } else {
      assert workers[k := w][..last] == workers[..last];
    }
  }

  lemma StepUsesWork(checks: seq<seq<Finding>>, width: nat, s: State, step: Step)
    requires Inv(checks, width, s) && Next(checks, width, s, step).Some?
    ensures Inv(checks, width, Next(checks, width, s, step).value)
    ensures Remaining(checks, width, Next(checks, width, s, step).value) < Remaining(checks, width, s)
  {
    StepKeepsInv(checks, width, s, step);
    match step {
      case Advance =>
        assert (s.workers + [Waiting])[..|s.workers|] == s.workers;
      case Lock(k) => WorkUpdate(s.workers, k, Locked);
      case Append(k) => WorkUpdate(s.workers, k, Unlocked);
      case Release(k) => WorkUpdate(s.workers, k, Exited);
    }
  }

  /** A run takes at most four steps per surface and as many as the pool is wide, plus two. */
  lemma {:induction false} RunsAreBounded(checks: seq<seq<Finding>>, width: nat, steps: seq<Step>)
    requires Run(checks, width, steps).Some?
    ensures |steps| <= 4 * |checks| + width + 2
  {
    RemainingOnRun(checks, width, steps);
  }

  lemma {:induction false} RemainingOnRun(checks: seq<seq<Finding>>, width: nat, steps: seq<Step>)
    requires Run(checks, width, steps).Some?
    ensures Inv(checks, width, Run(checks, width, steps).value)
    ensures |steps| + Remaining(checks, width, Run(checks, width, steps).value) <= 4 * |checks| + width + 2
  {
    if steps != [] {
      var last := |steps| - 1;
      RemainingOnRun(checks, width, steps[..last]);
      StepUsesWork(checks, width, Run(checks, width, steps[..last]).value, steps[last]);
    }
  }
}
