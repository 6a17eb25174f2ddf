/** Starting and stopping the managed Joern subprocess, with the crash watcher of every process
    ever started running beside the callers (internal/cpg_engine/joern.go).

    The part of Start between locking and unlocking the mutex is one step: it reads none of the
    flags that run outside the mutex and writes crashed last. */
module JoernLifecycle {
  import opened Findings

  /** A watcher waits for its process, then sets crashed, then closes done. */
  datatype Watcher = Watching | Stored | Closed

  datatype Process = Process(alive: bool, watcher: Watcher)

  /** Where a caller is: outside, polling for readiness, or inside Stop after taking the command,
      after setting stopping, after SIGTERM, after SIGKILL. */
  datatype Call =
    | Idle
    | WaitReady(pid: nat)
    | Taken(pid: nat)
    | Marked(pid: nat)
    | Signalled(pid: nat)
    | Killed(pid: nat)

  /** cmd is the process the client manages, if any; processes holds every one ever started. */
  datatype Client = Client(
    cmd: Option<nat>,
    crashed: bool,
    stopping: bool,
    processes: seq<Process>,
    calls: seq<Call>)

  datatype Step =
    | Refuse(c: nat)   // Start returns an error: already started, port in use, spawn failed
    | Spawn(c: nat)    // Start spawns the process and its watcher
    | Ready(c: nat)    // Start returns nil
    | GiveUp(c: nat)   // Start returns the error of the readiness poll
    | Take(c: nat)     // Stop takes the command out of the client
    | Mark(c: nat)     // Stop sets stopping
    | Signal(c: nat)   // Stop sends SIGTERM
    | Escalate(c: nat) // Stop's timer or context fires; it sends SIGKILL
    | Return(c: nat)   // Stop finds done closed and returns nil
    | Exit(p: nat)     // a process exits
    | Store(p: nat)    // its watcher sets crashed
    | Close(p: nat)    // its watcher closes done

  function Fresh(callers: nat): Client {
    Client(None, false, false, [], seq(callers, _ => Idle))
  }

  function Move(s: Client, c: nat, call: Call): Client
    requires c < |s.calls|
  {
    s.(calls := s.calls[c := call])
  }

  function Next(s: Client, step: Step): Option<Client> {
    match step
    case Refuse(c) =>
      if c < |s.calls| && s.calls[c].Idle? then
        Some(if s.cmd.Some? then s else s.(stopping := false))
      else None
    case Spawn(c) =>
      if c < |s.calls| && s.calls[c].Idle? && s.cmd == None then
        var pid := |s.processes|;
        Some(Move(s, c, WaitReady(pid)).(cmd := Some(pid), crashed := false, stopping := false,
                                         processes := s.processes + [Process(true, Watching)]))
      else None
    case Ready(c) =>
      if c < |s.calls| && s.calls[c].WaitReady? then Some(Move(s, c, Idle)) else None
    case GiveUp(c) =>
      if c < |s.calls| && s.calls[c].WaitReady? then Some(Move(s, c, Idle)) else None
    case Take(c) =>
      if c < |s.calls| && s.calls[c].Idle? && s.cmd.Some? then
        Some(Move(s, c, Taken(s.cmd.value)).(cmd := None))
      else None
    case Mark(c) =>
      if c < |s.calls| && s.calls[c].Taken? then
        Some(Move(s, c, Marked(s.calls[c].pid)).(stopping := true))
      else None
    case Signal(c) =>
      if c < |s.calls| && s.calls[c].Marked? then Some(Move(s, c, Signalled(s.calls[c].pid))) else None
    case Escalate(c) =>
      if c < |s.calls| && s.calls[c].Signalled? then Some(Move(s, c, Killed(s.calls[c].pid))) else None
    case Return(c) =>
      if c < |s.calls| && (s.calls[c].Signalled? || s.calls[c].Killed?) && DoneClosed(s, s.calls[c].pid) then
        Some(Move(s, c, Idle))
      else None
    case Exit(p) =>
      if p < |s.processes| && s.processes[p].alive then
        Some(s.(processes := s.processes[p := s.processes[p].(alive := false)]))
      else None
    case Store(p) =>
      if p < |s.processes| && s.processes[p] == Process(false, Watching) then
        Some(s.(crashed := true, processes := s.processes[p := Process(false, Stored)]))
      else None
    case Close(p) =>
      if p < |s.processes| && s.processes[p].watcher == Stored then
        Some(s.(processes := s.processes[p := s.processes[p].(watcher := Closed)]))
      else None
  }

  predicate DoneClosed(s: Client, p: nat) {
    p < |s.processes| && s.processes[p].watcher == Closed
  }

  /** Step begins a new call to Start or Stop. */
  predicate BeginsCall(step: Step) {
    step.Refuse? || step.Spawn? || step.Take?
  }

  predicate AllIdle(s: Client) {
    forall c | 0 <= c < |s.calls| :: s.calls[c].Idle?
  }

  function Run(s: Client, steps: seq<Step>): Option<Client> {
    if steps == [] then Some(s)
    else
      var before := Run(s, steps[..|steps| - 1]);
      if before == None then None else Next(before.value, steps[|steps| - 1])
  }

  /** Every call of the run begins when no other call is under way. */
  predicate Sequential(s: Client, steps: seq<Step>) {
    steps != [] ==>
      var init := steps[..|steps| - 1];
      Sequential(s, init) &&
      (BeginsCall(steps[|steps| - 1]) && Run(s, init).Some? ==> AllIdle(Run(s, init).value))
  }

  /** A live managed process is not reported as crashed. */
  predicate HonestFlag(s: Client) {
    s.cmd.Some? && s.cmd.value < |s.processes| && s.processes[s.cmd.value].alive ==> !s.crashed
  }

  predicate InStop(call: Call, p: nat) {
    (call.Taken? || call.Marked? || call.Signalled? || call.Killed?) && call.pid == p
  }

  /** At most one call is under way, on an existing process, and a Stop has taken the command. */
  ghost predicate CallsInOrder(s: Client) {
    && (forall c, d | 0 <= c < d < |s.calls| :: s.calls[c].Idle? || s.calls[d].Idle?)
    && (forall c | 0 <= c < |s.calls| && !s.calls[c].Idle? :: s.calls[c].pid < |s.processes|)
    && (forall c | 0 <= c < |s.calls| && !s.calls[c].Idle? && !s.calls[c].WaitReady? :: s.cmd == None)
    && (s.cmd.Some? ==> s.cmd.value < |s.processes|)
  }

  /** The process is the managed one or the one that the current Stop waits for. */
  ghost predicate LookedAfter(s: Client, p: nat) {
    s.cmd == Some(p) || exists c :: 0 <= c < |s.calls| && InStop(s.calls[c], p)
  }

  /** What sequential callers and free watchers keep: a process that is alive, or whose watcher
      is not through, is looked after, and the flag tells the managed process's watcher. */
  ghost predicate Inv(s: Client) {
    && CallsInOrder(s)
    && (forall p | 0 <= p < |s.processes| && s.processes[p].alive :: s.processes[p].watcher == Watching)
    && (forall p | 0 <= p < |s.processes| && s.processes[p].watcher != Closed :: LookedAfter(s, p))
    && (s.cmd.Some? ==> (s.crashed <==> s.processes[s.cmd.value].watcher != Watching))
  }

  lemma StepKeepsInv(s: Client, step: Step)
    requires Inv(s) && Next(s, step).Some? && (BeginsCall(step) ==> AllIdle(s))
    ensures Inv(Next(s, step).value)
  {
    if Background(step) {
      BackgroundKeepsInv(s, step);
    } else if step.Spawn? {
      SpawnKeepsInv(s, step.c);
    } else {
      CallerKeepsInv(s, step);
    }
  }

  lemma BackgroundKeepsInv(s: Client, step: Step)
    requires Inv(s) && Next(s, step).Some? && Background(step)
    ensures Inv(Next(s, step).value)
  {
    var t := Next(s, step).value;
    forall p | LookedAfter(s, p) ensures LookedAfter(t, p) {
    }
    assert s.cmd == t.cmd && s.calls == t.calls;
    if s.cmd.Some? {
      OnlyTheManagedOneIsWatched(s);
    }
  }

  /** While a process is managed, the watchers of all others are through. */
  lemma OnlyTheManagedOneIsWatched(s: Client)
    requires Inv(s) && s.cmd.Some?
    ensures forall p | 0 <= p < |s.processes| && p != s.cmd.value :: s.processes[p] == Process(false, Closed)
  {
    forall p | 0 <= p < |s.processes| && p != s.cmd.value ensures !LookedAfter(s, p) {
      if c :| 0 <= c < |s.calls| && InStop(s.calls[c], p) {
        assert false;
      }
    }
  }

  lemma SpawnKeepsInv(s: Client, c: nat)
    requires Inv(s) && AllIdle(s) && Next(s, Spawn(c)).Some?
    ensures Inv(Next(s, Spawn(c)).value)
  {
    var t := Next(s, Spawn(c)).value;
    forall p | 0 <= p < |s.processes| ensures !LookedAfter(s, p) && s.processes[p].watcher == Closed {
    }
    assert LookedAfter(t, |s.processes|);
  }

  lemma CallerKeepsInv(s: Client, step: Step)
    requires Inv(s) && Next(s, step).Some? && !Background(step) && !step.Spawn?
    requires BeginsCall(step) ==> AllIdle(s)
    ensures Inv(Next(s, step).value)
  {
    var t := Next(s, step).value;
    assert t.processes == s.processes;
    forall p | 0 <= p < |t.processes| && t.processes[p].watcher != Closed ensures LookedAfter(t, p) {
      assert LookedAfter(s, p);
      if step.Take? && s.cmd == Some(p) {
        assert InStop(t.calls[step.c], p);
      } else if s.cmd != Some(p) {
        var c :| 0 <= c < |s.calls| && InStop(s.calls[c], p);
        assert InStop(t.calls[c], p);
      }
    }
  }

  lemma {:induction false} InvOnSequentialRuns(callers: nat, steps: seq<Step>)
    requires Run(Fresh(callers), steps).Some? && Sequential(Fresh(callers), steps)
    ensures Inv(Run(Fresh(callers), steps).value)
  {
    if steps != [] {
      var last := |steps| - 1;
      InvOnSequentialRuns(callers, steps[..last]);
      StepKeepsInv(Run(Fresh(callers), steps[..last]).value, steps[last]);
    }
  }

  /** With sequential callers, crashed is false whenever the managed process is alive, and no
      watcher of another process is still to set it. */
  lemma NoFalseAlarm(callers: nat, steps: seq<Step>)
    requires Run(Fresh(callers), steps).Some? && Sequential(Fresh(callers), steps)
    ensures var s := Run(Fresh(callers), steps).value;
      && HonestFlag(s)
      && (s.cmd.Some? ==> forall p | 0 <= p < |s.processes| && p != s.cmd.value :: s.processes[p] == Process(false, Closed))
  {
    InvOnSequentialRuns(callers, steps);
  }

  /** A Stop that is past its mark has set the flag, and a managed process has it cleared. */
  ghost predicate StopIsFlagged(s: Client) {
    && (s.cmd.Some? ==> !s.stopping)
    && (forall c | 0 <= c < |s.calls| && (s.calls[c].Marked? || s.calls[c].Signalled? || s.calls[c].Killed?) :: s.stopping)
  }

  lemma StepKeepsTheFlag(s: Client, step: Step)
    requires Inv(s) && StopIsFlagged(s) && Next(s, step).Some? && (BeginsCall(step) ==> AllIdle(s))
    ensures StopIsFlagged(Next(s, step).value)
  {
    if step.Mark? {
      assert s.cmd == None;
    }
  }

  lemma {:induction false} FlaggedOnSequentialRuns(callers: nat, steps: seq<Step>)
    requires Run(Fresh(callers), steps).Some? && Sequential(Fresh(callers), steps)
    ensures StopIsFlagged(Run(Fresh(callers), steps).value)
  {
    if steps != [] {
      var last := |steps| - 1;
      FlaggedOnSequentialRuns(callers, steps[..last]);
      InvOnSequentialRuns(callers, steps[..last]);
      StepKeepsTheFlag(Run(Fresh(callers), steps[..last]).value, steps[last]);
    }
  }

  /** With sequential callers a watcher tells shutdowns from crashes: when it sets crashed, stopping
      is set if a Stop has marked its process, and not set if the process is still managed. */
  lemma ExitsAreTold(callers: nat, steps: seq<Step>, p: nat)
    requires Run(Fresh(callers), steps).Some? && Sequential(Fresh(callers), steps)
    requires Next(Run(Fresh(callers), steps).value, Store(p)).Some?
    ensures var s := Run(Fresh(callers), steps).value;
      && s.stopping == Next(s, Store(p)).value.stopping
      && (s.cmd == Some(p) ==> !s.stopping)
      && (s.cmd != Some(p) ==> exists c :: 0 <= c < |s.calls| && InStop(s.calls[c], p) && (s.calls[c].Taken? || s.stopping))
  {
    FlaggedOnSequentialRuns(callers, steps);
    InvOnSequentialRuns(callers, steps);
    var s := Run(Fresh(callers), steps).value;
    assert LookedAfter(s, p);
  }

  /** When Stop returns, its process is dead, its watcher is through and the client can be
      started again. */
  lemma StopLeavesARestartableClient(callers: nat, steps: seq<Step>, c: nat)
    requires Run(Fresh(callers), steps).Some? && Sequential(Fresh(callers), steps)
    requires Next(Run(Fresh(callers), steps).value, Return(c)).Some?
    ensures var s := Run(Fresh(callers), steps).value;
      var t := Next(s, Return(c)).value;
      && s.processes[s.calls[c].pid] == Process(false, Closed)
      && AllIdle(t) && t.cmd == None && Next(t, Spawn(c)).Some?
  {
    InvOnSequentialRuns(callers, steps);
  }

  /** Steps that are still needed for a Stop to return, counting the death of the process and its
      watcher's two actions. */
  function StopDistance(s: Client, c: nat): nat
    requires c < |s.calls| && !s.calls[c].Idle? && s.calls[c].pid < |s.processes|
  {
    var process := s.processes[s.calls[c].pid];
    (if s.calls[c].Taken? then 4 else if s.calls[c].Marked? then 3 else if s.calls[c].Signalled? then 2 else 1) +
    (if process.alive then 3 else if process.watcher == Watching then 2 else if process.watcher == Stored then 1 else 0)
  }

  /** A Stop under way is never stuck: some step of its own, of its process or of its watcher can
      be taken and brings its return nearer. Once SIGKILL is out only the process's own death is
      needed from outside. */
  lemma StopAlwaysProgresses(callers: nat, steps: seq<Step>, c: nat) returns (step: Step)
    requires Run(Fresh(callers), steps).Some? && Sequential(Fresh(callers), steps)
    requires InsideStop(Run(Fresh(callers), steps).value, c)
    ensures Nearer(Run(Fresh(callers), steps).value, c, step)
  {
    InvOnSequentialRuns(callers, steps);
    step := NextOfStop(Run(Fresh(callers), steps).value, c);
  }

  predicate InsideStop(s: Client, c: nat) {
    c < |s.calls| && !s.calls[c].Idle? && !s.calls[c].WaitReady?
  }

  /** The step can be taken; it ends the Stop or brings its end nearer, and it is the death of
      the process only once SIGKILL is out. */
  predicate Nearer(s: Client, c: nat, step: Step)
    requires InsideStop(s, c)
  {
    && s.calls[c].pid < |s.processes| && Next(s, step).Some?
    && (step.Exit? ==> s.calls[c].Killed?)
    && (step == Return(c) || Shortens(s, c, Next(s, step).value))
  }

  predicate Shortens(s: Client, c: nat, t: Client)
    requires InsideStop(s, c) && s.calls[c].pid < |s.processes|
  {
    InsideStop(t, c) && t.calls[c].pid == s.calls[c].pid && s.calls[c].pid < |t.processes|
    && StopDistance(t, c) < StopDistance(s, c)
  }

  lemma NextOfStop(s: Client, c: nat) returns (step: Step)
    requires Inv(s) && InsideStop(s, c)
    ensures Nearer(s, c, step)
  {
    var p := s.calls[c].pid;
    if s.calls[c].Taken? {
      step := Mark(c);
    } else if s.calls[c].Marked? {
      step := Signal(c);
    } else if s.processes[p].watcher == Closed {
      step := Return(c);
    } else if s.calls[c].Signalled? {
      step := Escalate(c);
    } else if s.processes[p].alive {
      step := Exit(p);
    } else {
      step := if s.processes[p].watcher == Watching then Store(p) else Close(p);
    }
  }

  /** No step of anyone, whatever the callers do, takes a Stop under way further from its return. */
  lemma NothingSetsAStopBack(s: Client, c: nat, step: Step)
    requires c < |s.calls| && !s.calls[c].Idle? && !s.calls[c].WaitReady? && s.calls[c].pid < |s.processes|
    requires LivingAreWatched(s)
    requires Next(s, step).Some? && step != Return(c)
    ensures var t := Next(s, step).value;
      && |s.processes| <= |t.processes| && |t.calls| == |s.calls|
      && !t.calls[c].Idle? && t.calls[c].pid == s.calls[c].pid
      && StopDistance(t, c) <= StopDistance(s, c)
  {
    var t, pid := Next(s, step).value, s.calls[c].pid;
    assert t.calls[c].pid == pid;
    match step {
      case Spawn(d) => assert t.processes[pid] == s.processes[pid];
      case Exit(p) => assert p != pid ==> t.processes[pid] == s.processes[pid];
      case Store(p) => assert p != pid ==> t.processes[pid] == s.processes[pid];
      case Close(p) => assert p != pid ==> t.processes[pid] == s.processes[pid];
      case _ => assert t.processes == s.processes;
    }
  }

  // ---- Concurrent callers -----------------------------------------------------------------------

  /** A step of a process or a watcher, with no caller involved. */
  predicate Background(step: Step) {
    step.Exit? || step.Store? || step.Close?
  }

  predicate AllBackground(steps: seq<Step>) {
    forall i | 0 <= i < |steps| :: Background(steps[i])
  }

  /** An older process's watcher has yet to set crashed. */
  ghost predicate OldWatcherPending(s: Client) {
    s.cmd.Some? && exists q :: 0 <= q < |s.processes| && q != s.cmd.value && s.processes[q].watcher == Watching
  }

  /** A caller in Stop has taken the command of a process that exits meanwhile. */
  lemma StopOvertakenByExit()
    ensures Run(Fresh(2), [Spawn(0), Ready(0), Take(0), Exit(0)])
         == Some(Client(None, false, false, [Process(false, Watching)], [Taken(0), Idle]))
  {
    var s0, steps := Fresh(2), [Spawn(0), Ready(0), Take(0), Exit(0)];
    assert s0.calls == [Idle, Idle];
    var s1 := Client(Some(0), false, false, [Process(true, Watching)], [WaitReady(0), Idle]);
    var s2 := Client(Some(0), false, false, [Process(true, Watching)], [Idle, Idle]);
    var s3 := Client(None, false, false, [Process(true, Watching)], [Taken(0), Idle]);
    var s4 := Client(None, false, false, [Process(false, Watching)], [Taken(0), Idle]);
    assert Next(s0, Spawn(0)) == Some(s1) by {
      assert s0.calls[0 := WaitReady(0)] == s1.calls && [] + [Process(true, Watching)] == s1.processes;
    }
    assert Next(s1, Ready(0)) == Some(s2) by {
      assert s1.calls[0 := Idle] == s2.calls;
    }
    assert Next(s2, Take(0)) == Some(s3) by {
      assert s2.calls[0 := Taken(0)] == s3.calls;
    }
    assert Next(s3, Exit(0)) == Some(s4) by {
      assert s3.processes[0 := Process(false, Watching)] == s4.processes;
    }
    RunOfStates(s0, steps, [s0, s1, s2, s3, s4]);
  }

  /** The watcher of a living process is still waiting for it. */
  predicate LivingAreWatched(s: Client) {
    forall p | 0 <= p < |s.processes| && s.processes[p].alive :: s.processes[p].watcher == Watching
  }

  /** Whatever the callers do. */
  lemma {:induction false} LivingAreWatchedOnEveryRun(callers: nat, steps: seq<Step>)
    requires Run(Fresh(callers), steps).Some?
    ensures LivingAreWatched(Run(Fresh(callers), steps).value)
  {
    if steps != [] {
      LivingAreWatchedOnEveryRun(callers, steps[..|steps| - 1]);
    }
  }

  /** Steps of processes and watchers alone can lead to a false alarm. */
  ghost predicate CanBeReportedCrashed(s: Client) {
    exists steps :: AllBackground(steps) && Run(s, steps).Some? && !HonestFlag(Run(s, steps).value)
  }

  /** With concurrent callers a live process can be reported as crashed: while one caller is in
      Stop, after taking the command, another one starts a new process, and then the old
      watcher sets the flag. */
  lemma ConcurrentStartCanBeReportedCrashed()
    ensures var s := Run(Fresh(2), [Spawn(0), Ready(0), Take(0), Exit(0), Spawn(1), Ready(1), Store(0)]);
      s.Some? && s.value.cmd == Some(1) && s.value.processes == [Process(false, Stored), Process(true, Watching)] && s.value.crashed
  {
    StopOvertakenByExit();
    var steps := [Spawn(0), Ready(0), Take(0), Exit(0)];
    var s4 := Run(Fresh(2), steps).value;
    var s5 := Client(Some(1), false, false, [Process(false, Watching), Process(true, Watching)], [Taken(0), WaitReady(1)]);
    var s6 := s5.(calls := [Taken(0), Idle]);
    RunSnoc(Fresh(2), steps, Spawn(1));
    assert Next(s4, Spawn(1)) == Some(s5) by {
      assert s4.calls[1 := WaitReady(1)] == s5.calls && s4.processes + [Process(true, Watching)] == s5.processes;
    }
    RunSnoc(Fresh(2), steps + [Spawn(1)], Ready(1));
    assert Next(s5, Ready(1)) == Some(s6) by {
      assert s5.calls[1 := Idle] == s6.calls;
    }
    RunSnoc(Fresh(2), steps + [Spawn(1)] + [Ready(1)], Store(0));
    assert steps + [Spawn(1)] + [Ready(1)] + [Store(0)] == [Spawn(0), Ready(0), Take(0), Exit(0), Spawn(1), Ready(1), Store(0)];
  }

  /** A run through a given list of states. */
  lemma {:induction false} RunOfStates(s: Client, steps: seq<Step>, states: seq<Client>)
    requires |states| == |steps| + 1 && states[0] == s
    requires forall i | 0 <= i < |steps| :: Next(states[i], steps[i]) == Some(states[i + 1])
    ensures Run(s, steps) == Some(states[|steps|])
  {
    if steps != [] {
      RunOfStates(s, steps[..|steps| - 1], states[..|steps|]);
    }
  }

  lemma RunSnoc(s: Client, steps: seq<Step>, step: Step)
    ensures Run(s, steps + [step]) == if Run(s, steps) == None then None else Next(Run(s, steps).value, step)
  {
    assert (steps + [step])[..|steps|] == steps;
  }

  /** For any callers: a live process with a clear flag can come to be reported as crashed while
      it lives and no caller acts, exactly if an older process's watcher is still pending. */
  lemma FalseAlarmExactlyWhen(s: Client)
    requires s.cmd.Some? && s.cmd.value < |s.processes|
    requires s.processes[s.cmd.value].alive && !s.crashed
    requires LivingAreWatched(s)
    ensures OldWatcherPending(s)
        <==> CanBeReportedCrashed(s)
  {
    if OldWatcherPending(s) {
      var q :| 0 <= q < |s.processes| && q != s.cmd.value && s.processes[q].watcher == Watching;
      var steps := AlarmSteps(s, q);
    } else {
      forall steps | AllBackground(steps) && Run(s, steps).Some? ensures HonestFlag(Run(s, steps).value) {
        BackgroundKeepsFlag(s, s.cmd.value, steps);
      }
    }
  }

  /** A Start leaves an older watcher pending exactly if some watcher has not come to its flag yet
      when it begins. */
  lemma SpawnLeavesWatcherExactlyWhen(s: Client, c: nat)
    requires Next(s, Spawn(c)).Some?
    ensures OldWatcherPending(Next(s, Spawn(c)).value)
        <==> exists q | 0 <= q < |s.processes| :: s.processes[q].watcher == Watching
  {
    var t := Next(s, Spawn(c)).value;
    if q :| 0 <= q < |s.processes| && s.processes[q].watcher == Watching {
      assert t.processes[q].watcher == Watching;
    }
  }

  /** So, for any callers, the process that a Start spawns can come to be reported as crashed while
      it lives, with no caller acting any more, exactly if some watcher was still waiting when the
      Start began. */
  lemma StartRisksFalseAlarmExactlyWhen(s: Client, c: nat)
    requires Next(s, Spawn(c)).Some?
    requires LivingAreWatched(s)
    ensures (exists q | 0 <= q < |s.processes| :: s.processes[q].watcher == Watching)
        <==> CanBeReportedCrashed(Next(s, Spawn(c)).value)
  {
    SpawnLeavesWatcherExactlyWhen(s, c);
    FalseAlarmExactlyWhen(Next(s, Spawn(c)).value);
  }

  lemma AlarmSteps(s: Client, q: nat) returns (steps: seq<Step>)
    requires s.cmd.Some? && s.cmd.value < |s.processes| && s.processes[s.cmd.value].alive
    requires q < |s.processes| && q != s.cmd.value && s.processes[q].watcher == Watching
    ensures AllBackground(steps) && Run(s, steps).Some? && !HonestFlag(Run(s, steps).value)
  {
    if s.processes[q].alive {
      steps := [Exit(q), Store(q)];
      var t := Next(s, Exit(q)).value;
      RunOfStates(s, steps, [s, t, Next(t, Store(q)).value]);
    } else {
      steps := [Store(q)];
      RunOfStates(s, steps, [s, Next(s, Store(q)).value]);
    }
  }

  /** A live, managed process that is not reported as crashed, with no older watcher pending. */
  ghost predicate Quiet(s: Client, p: nat) {
    && s.cmd == Some(p) && p < |s.processes|
    && (s.processes[p].alive ==> !s.crashed)
    && forall q | 0 <= q < |s.processes| && q != p :: s.processes[q].watcher != Watching
  }

  lemma {:induction false} BackgroundKeepsFlag(s: Client, p: nat, steps: seq<Step>)
    requires Quiet(s, p) && AllBackground(steps) && Run(s, steps).Some?
    ensures Quiet(Run(s, steps).value, p)
  {
    if steps != [] {
      BackgroundKeepsFlag(s, p, steps[..|steps| - 1]);
      BackgroundStepKeepsFlag(Run(s, steps[..|steps| - 1]).value, p, steps[|steps| - 1]);
    }
  }

  lemma BackgroundStepKeepsFlag(s: Client, p: nat, step: Step)
    requires Quiet(s, p) && Background(step) && Next(s, step).Some?
    ensures Quiet(Next(s, step).value, p)
  {
  }
}
