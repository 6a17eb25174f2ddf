/** The detection stage's channel: producers that send their findings, a closer that waits for
    all of them, and one consumer, in every interleaving (internal/pipeline/pipeline.go). */
module Detection {
  import opened Findings

  const CAPACITY := 256

  /** What is left for a producer to send, or that it returned, with or without an error. */
  datatype Producer = Running(todo: seq<Finding>) | Returned(failed: bool)

  /** A finding in the channel with the number of the producer that sent it. */
  datatype Item = Item(from: nat, finding: Finding)

  datatype State = State(
    producers: seq<Producer>,
    buffer: seq<Item>,
    closed: bool,
    sentAfterClose: bool,
    received: seq<Item>,
    done: bool)

  /** One atomic step: producer i sends its next finding, returns, or returns early with an
      error; the closer closes the channel; the consumer receives or leaves its loop. */
  datatype Step = Send(i: nat) | Return(i: nat) | Fail(i: nat) | Close | Receive | Finish

  function Start(programs: seq<seq<Finding>>): State {
    State(seq(|programs|, i requires 0 <= i < |programs| => Running(programs[i])), [], false, false, [], false)
  }

  /** The state after a step, or None while the step is blocked. Sending on a closed channel is
      possible and is what must never happen. */
  function Next(s: State, step: Step): Option<State> {
    match step
    case Send(i) =>
      if i < |s.producers| && s.producers[i].Running? && s.producers[i].todo != [] then
        var todo := s.producers[i].todo;
        if s.closed then Some(s.(sentAfterClose := true))
        else if |s.buffer| < CAPACITY then
          Some(s.(producers := s.producers[i := Running(todo[1..])], buffer := s.buffer + [Item(i, todo[0])]))
        else None
      else None
    case Return(i) =>
      if i < |s.producers| && s.producers[i] == Running([]) then
        Some(s.(producers := s.producers[i := Returned(false)]))
      else None
    case Fail(i) =>
      if i < |s.producers| && s.producers[i].Running? then
        Some(s.(producers := s.producers[i := Returned(true)]))
      else None
    case Close =>
      if !s.closed && AllReturned(s) then Some(s.(closed := true)) else None
    case Receive =>
      if !s.done && s.buffer != [] then
        Some(s.(buffer := s.buffer[1..], received := s.received + [s.buffer[0]]))
      else None
    case Finish =>
      if !s.done && s.buffer == [] && s.closed then Some(s.(done := true)) else None
  }

  predicate AllReturned(s: State) {
    forall i | 0 <= i < |s.producers| :: s.producers[i].Returned?
  }

  /** The state after a whole run, or None if a step of it was blocked. */
  function Run(s: State, steps: seq<Step>): Option<State> {
    if steps == [] then Some(s)
    else
      var before := Run(s, steps[..|steps| - 1]);
      if before == None then None else Next(before.value, steps[|steps| - 1])
  }

  /** The findings in a log that one producer sent, in order. */
  function From(log: seq<Item>, i: nat): seq<Finding> {
    if log == [] then []
    else
      var last := log[|log| - 1];
      From(log[..|log| - 1], i) + if last.from == i then [last.finding] else []
  }

  /** Producer i's part of the log and what it has yet to send make up its program; a failed
      producer leaves a prefix. */
  ghost predicate Accounts(program: seq<Finding>, p: Producer, sent: seq<Finding>) {
    match p
    case Running(todo) => sent + todo == program
    case Returned(failed) => if failed then sent <= program else sent == program
  }

  ghost predicate Inv(programs: seq<seq<Finding>>, s: State) {
    && |s.producers| == |programs|
    && !s.sentAfterClose
    && |s.buffer| <= CAPACITY
    && (s.closed ==> AllReturned(s))
    && (s.done ==> s.closed && s.buffer == [])
    && (forall k | 0 <= k < |s.received + s.buffer| :: (s.received + s.buffer)[k].from < |programs|)
    && (forall i | 0 <= i < |programs| :: Accounts(programs[i], s.producers[i], From(s.received + s.buffer, i)))
  }

  lemma FromSnoc(log: seq<Item>, item: Item, i: nat)
    ensures From(log + [item], i) == From(log, i) + if item.from == i then [item.finding] else []
  {
    assert (log + [item])[..|log|] == log;
  }

  lemma SendKeepsInv(programs: seq<seq<Finding>>, s: State, i: nat)
    requires Inv(programs, s) && Next(s, Send(i)).Some?
    ensures Inv(programs, Next(s, Send(i)).value)
  {
    var t := Next(s, Send(i)).value;
    var log, item := s.received + s.buffer, Item(i, s.producers[i].todo[0]);
    assert t.received + t.buffer == log + [item];
    forall k | 0 <= k < |programs| ensures Accounts(programs[k], t.producers[k], From(t.received + t.buffer, k)) {
      FromSnoc(log, item, k);
    }
  }

  lemma ReceiveKeepsInv(programs: seq<seq<Finding>>, s: State)
    requires Inv(programs, s) && Next(s, Receive).Some?
    ensures Inv(programs, Next(s, Receive).value)
  {
    var t := Next(s, Receive).value;
    assert t.received + t.buffer == s.received + s.buffer;
  }

  lemma StepKeepsInv(programs: seq<seq<Finding>>, s: State, step: Step)
    requires Inv(programs, s) && Next(s, step).Some?
    ensures Inv(programs, Next(s, step).value)
  {
    match step {
      case Send(i) => SendKeepsInv(programs, s, i);
      case Receive => ReceiveKeepsInv(programs, s);
      case _ =>
    }
  }

  lemma {:induction false} InvOnEveryRun(programs: seq<seq<Finding>>, steps: seq<Step>)
    requires Run(Start(programs), steps).Some?
    ensures Inv(programs, Run(Start(programs), steps).value)
  {
    if steps != [] {
      var last := |steps| - 1;
      InvOnEveryRun(programs, steps[..last]);
      StepKeepsInv(programs, Run(Start(programs), steps[..last]).value, steps[last]);
    }
  }

  /** No run sends on the closed channel. */
  lemma NoSendAfterClose(programs: seq<seq<Finding>>, steps: seq<Step>)
    requires Run(Start(programs), steps).Some?
    ensures !Run(Start(programs), steps).value.sentAfterClose
  {
    InvOnEveryRun(programs, steps);
  }

  /** Until the consumer has left its loop some step other than a failure can be taken. */
  lemma NeverStuck(programs: seq<seq<Finding>>, steps: seq<Step>) returns (step: Step)
    requires Run(Start(programs), steps).Some? && !Run(Start(programs), steps).value.done
    ensures Next(Run(Start(programs), steps).value, step).Some? && !step.Fail?
  {
    InvOnEveryRun(programs, steps);
    var s := Run(Start(programs), steps).value;
    if s.buffer != [] {
      step := Receive;
    } else if i :| 0 <= i < |s.producers| && s.producers[i].Running? {
      step := if s.producers[i].todo == [] then Return(i) else Send(i);
    } else {
      step := if s.closed then Finish else Close;
    }
  }

  // ---- Every run ends -----------------------------------------------------------------------

  function Work(producers: seq<Producer>): nat {
    if producers == [] then 0
    else
      var last := producers[|producers| - 1];
      Work(producers[..|producers| - 1]) + if last.Running? then 2 * |last.todo| + 1 else 0
  }

  function Remaining(s: State): nat {
    Work(s.producers) + |s.buffer| + (if s.closed then 0 else 1) + (if s.done then 0 else 1)
  }

  lemma {:induction false} WorkUpdate(producers: seq<Producer>, i: nat, p: Producer)
    requires i < |producers|
    ensures Work(producers[i := p]) + (if producers[i].Running? then 2 * |producers[i].todo| + 1 else 0)
         == Work(producers) + if p.Running? then 2 * |p.todo| + 1 else 0
  {
    var last := |producers| - 1;
    if i < last {
      WorkUpdate(producers[..last], i, p);
      assert producers[i := p][..last] == producers[..last][i := p];
    } else {
      assert producers[i := p][..last] == producers[..last];
    }
  }

  lemma StepUsesWork(programs: seq<seq<Finding>>, s: State, step: Step)
    requires Inv(programs, s) && Next(s, step).Some?
    ensures Remaining(Next(s, step).value) < Remaining(s)
  {
    match step {
      case Send(i) => WorkUpdate(s.producers, i, Running(s.producers[i].todo[1..]));
      case Return(i) => WorkUpdate(s.producers, i, Returned(false));
      case Fail(i) => WorkUpdate(s.producers, i, Returned(true));
      case _ =>
    }
  }

  /** A run takes at most two steps for each finding, one for each producer and two more. */
  lemma {:induction false} RunsAreBounded(programs: seq<seq<Finding>>, steps: seq<Step>)
    requires Run(Start(programs), steps).Some?
    ensures |steps| + Remaining(Run(Start(programs), steps).value) <= Remaining(Start(programs))
  {
    if steps != [] {
      var last := |steps| - 1;
      RunsAreBounded(programs, steps[..last]);
      InvOnEveryRun(programs, steps[..last]);
      StepUsesWork(programs, Run(Start(programs), steps[..last]).value, steps[last]);
    }
  }

  // ---- What the consumer has at the end ------------------------------------------------------

  predicate NoFailure(s: State) {
    forall i | 0 <= i < |s.producers| :: s.producers[i] != Returned(true)
  }

  /** When the consumer leaves its loop it has every producer's findings once and in that
      producer's order; of a producer that failed it has the findings sent before. */
  lemma ReceivedIsWhatWasSent(programs: seq<seq<Finding>>, steps: seq<Step>)
    requires Run(Start(programs), steps).Some? && Run(Start(programs), steps).value.done
    ensures var s := Run(Start(programs), steps).value;
      && (forall i | 0 <= i < |programs| :: From(s.received, i) <= programs[i])
      && (NoFailure(s) ==> forall i | 0 <= i < |programs| :: From(s.received, i) == programs[i])
      && forall k | 0 <= k < |s.received| :: s.received[k].from < |programs|
  {
    InvOnEveryRun(programs, steps);
    var s := Run(Start(programs), steps).value;
    assert s.received + s.buffer == s.received;
  }

  function Payload(log: seq<Item>): seq<Finding> {
    seq(|log|, k requires 0 <= k < |log| => log[k].finding)
  }

  function Count(log: seq<Item>, i: nat, f: Finding): nat {
    multiset(From(log, i))[f]
  }

  function CountUpTo(log: seq<Item>, n: nat, f: Finding): nat {
    if n == 0 then 0 else CountUpTo(log, n - 1, f) + Count(log, n - 1, f)
  }

  lemma {:induction false} CountSnoc(log: seq<Item>, item: Item, n: nat, f: Finding)
    ensures CountUpTo(log + [item], n, f)
         == CountUpTo(log, n, f) + if item.from < n && item.finding == f then 1 else 0
  {
    if n > 0 {
      CountSnoc(log, item, n - 1, f);
      FromSnoc(log, item, n - 1);
    }
  }

  /** A finding occurs in the log as often as the producers sent it in all. */
  lemma {:induction false} PayloadCount(log: seq<Item>, n: nat, f: Finding)
    requires forall k | 0 <= k < |log| :: log[k].from < n
    ensures multiset(Payload(log))[f] == CountUpTo(log, n, f)
  {
    if log == [] {
      EmptyCount(n, f);
    } else {
      var last := |log| - 1;
      PayloadCount(log[..last], n, f);
      assert log == log[..last] + [log[last]];
      CountSnoc(log[..last], log[last], n, f);
      assert Payload(log) == Payload(log[..last]) + [log[last].finding];
    }
  }

  lemma {:induction false} EmptyCount(n: nat, f: Finding)
    ensures CountUpTo([], n, f) == 0
  {
    if n > 0 {
      EmptyCount(n - 1, f);
    }
  }

  lemma {:induction false} SameCounts(a: seq<Item>, b: seq<Item>, n: nat, f: Finding)
    requires forall i: nat | i < n :: From(a, i) == From(b, i)
    ensures CountUpTo(a, n, f) == CountUpTo(b, n, f)
  {
    if n > 0 {
      SameCounts(a, b, n - 1, f);
    }
  }

  /** Two error-free runs of the same producers deliver permutations of each other. */
  lemma DeliveriesArePermutations(programs: seq<seq<Finding>>, steps: seq<Step>, steps': seq<Step>)
    requires Run(Start(programs), steps).Some? && Run(Start(programs), steps').Some?
    requires Run(Start(programs), steps).value.done && Run(Start(programs), steps').value.done
    requires NoFailure(Run(Start(programs), steps).value) && NoFailure(Run(Start(programs), steps').value)
    ensures multiset(Payload(Run(Start(programs), steps).value.received))
         == multiset(Payload(Run(Start(programs), steps').value.received))
  {
    ReceivedIsWhatWasSent(programs, steps);
    ReceivedIsWhatWasSent(programs, steps');
    var a := Run(Start(programs), steps).value.received;
    var b := Run(Start(programs), steps').value.received;
    forall f ensures multiset(Payload(a))[f] == multiset(Payload(b))[f] {
      PayloadCount(a, |programs|, f);
      PayloadCount(b, |programs|, f);
      SameCounts(a, b, |programs|, f);
    }
  }
}
