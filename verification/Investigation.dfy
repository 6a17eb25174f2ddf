/** The bounded tool-calling investigation of one surface and the guards on its verdict
    (internal/semantic/analysis/analysis.go, verdict.go).

    The language model is an arbitrary oracle. Reply k is whatever the k-th Chat call of the
    surface returns, so a statement about every reply function covers every model behaviour. */
module Investigation {
  import opened Findings

  const MAX_TOOL_CALLS := 8
  const UNINVESTIGATED_CAP := 0.5
  const DUAL_TOOL_THRESHOLD := 0.85

  datatype Verdict = Verdict(
    exploitable: bool,
    cwe: string,
    severity: string,
    confidence: real,
    explanation: string,
    taintMismatch: bool)

  datatype Reply = ChatFailed | Message(toolCalls: seq<string>, content: string)

  /** The three corrective prompts the loop may send instead of accepting an answer. */
  datatype Nudge = CallATool | ChaseOneMoreHop | SecondAngle

  /** One surface's conversation: the model, the verdict parser, and whether the surface's CWE
      requires an investigation. The predicates below describe the run by the history of
      replies alone, with none of the loop's counters and flags. */
  datatype Session = Session(chat: nat -> Reply, parse: string -> Verdict, gated: bool)
  {
    function ToolsAt(k: nat): seq<string> {
      if chat(k).Message? then chat(k).toolCalls else []
    }

    function ToolsBefore(k: nat): seq<string> {
      if k == 0 then [] else ToolsBefore(k - 1) + ToolsAt(k - 1)
    }

    predicate Investigated(k: nat) {
      ToolsBefore(k) != []
    }

    function ToolNames(k: nat): set<string> {
      set name | name in ToolsBefore(k)
    }

    /** Round k is an attempt to answer: a reply without tool calls. */
    predicate Attempt(k: nat) {
      chat(k).Message? && chat(k).toolCalls == []
    }

    function VerdictAt(k: nat): Verdict
      requires chat(k).Message?
    {
      parse(chat(k).content)
    }

    predicate OneHopOnly(k: nat) {
      gated && Attempt(k) && Investigated(k) && |ToolsBefore(k)| < 2 && VerdictAt(k).exploitable
    }

    predicate Chased(k: nat) {
      k > 0 && (Chased(k - 1) || OneHopOnly(k - 1))
    }

    predicate OneAngleOnly(k: nat) {
      && gated && Attempt(k) && Investigated(k)
      && (OneHopOnly(k) ==> Chased(k))
      && |ToolNames(k)| < 2 && VerdictAt(k).exploitable
      && VerdictAt(k).confidence >= DUAL_TOOL_THRESHOLD
    }

    predicate Diversified(k: nat) {
      k > 0 && (Diversified(k - 1) || OneAngleOnly(k - 1))
    }

    /** The loop takes the reply of round k as the answer. */
    predicate Accepts(k: nat) {
      && Attempt(k)
      && (gated ==> Investigated(k))
      && (OneHopOnly(k) ==> Chased(k))
      && (OneAngleOnly(k) ==> Diversified(k))
    }

    predicate Stops(k: nat) {
      chat(k).ChatFailed? || Accepts(k)
    }

    function AnswerAt(k: nat): Option<string> {
      if chat(k).Message? then Some(chat(k).content) else None
    }

    /** The nudge sent in round k, if that round was an attempt that was turned down. */
    function NudgeAt(k: nat): Option<Nudge> {
      if !Attempt(k) || Accepts(k) then None
      else if !Investigated(k) then Some(CallATool)
      else if OneHopOnly(k) && !Chased(k) then Some(ChaseOneMoreHop)
      else Some(SecondAngle)
    }

    function NudgesBefore(k: nat): seq<Nudge> {
      if k == 0 then []
      else NudgesBefore(k - 1) + (if NudgeAt(k - 1).Some? then [NudgeAt(k - 1).value] else [])
    }

    /** The run makes its last Chat call in round k: the first round that stops the loop, or
        round 8 with the forced answer when no earlier round does. */
    ghost predicate EndsAt(k: nat) {
      && k <= MAX_TOOL_CALLS
      && (forall j: nat | j < k :: !Stops(j))
      && (k < MAX_TOOL_CALLS ==> Stops(k))
    }
  }

  /** The loop's own variables. */
  datatype Progress = Progress(
    investigated: bool,
    toolCallCount: nat,
    distinctTools: set<string>,
    chased: bool,
    diversityNudged: bool,
    nudges: seq<Nudge>)

  const START := Progress(false, 0, {}, false, false, [])

  /** The loop's variables before round k say what the history of replies says. */
  ghost predicate Tracks(s: Session, k: nat, p: Progress) {
    && p.investigated == s.Investigated(k)
    && p.toolCallCount == |s.ToolsBefore(k)|
    && p.distinctTools == s.ToolNames(k)
    && p.chased == s.Chased(k)
    && p.diversityNudged == s.Diversified(k)
    && p.nudges == s.NudgesBefore(k)
  }

  /** The gates that stand between a tool-less reply and its acceptance, in the loop's order.
      Which nudge is sent is decided by the history of replies. */
  method Review(s: Session, k: nat, p: Progress) returns (nudge: Option<Nudge>)
    requires s.Attempt(k) && Tracks(s, k, p)
    ensures nudge == None <==> s.Accepts(k)
    ensures nudge == s.NudgeAt(k)
  {
    if s.gated && !p.investigated {
      return Some(CallATool);
    }
    var candidate := s.parse(s.chat(k).content);
    if s.gated && p.investigated && p.toolCallCount < 2 && !p.chased && candidate.exploitable {
      return Some(ChaseOneMoreHop);
    }
    if s.gated && p.investigated && !p.diversityNudged && |p.distinctTools| < 2 &&
       candidate.exploitable && candidate.confidence >= DUAL_TOOL_THRESHOLD {
      return Some(SecondAngle);
    }
    return None;
  }

  /** One round of the loop that does not end it. */
  method PlayRound(s: Session, k: nat, p: Progress) returns (next: Option<Progress>)
    requires Tracks(s, k, p)
    ensures next == None <==> s.Stops(k)
    ensures next.Some? ==> Tracks(s, k + 1, next.value)
  {
    var msg := s.chat(k);
    if msg.ChatFailed? {
      return None;
    }
    if msg.toolCalls == [] {
      var nudge := Review(s, k, p);
      if nudge == None {
        return None;
      }
      next := Some(p.(chased := p.chased || nudge == Some(ChaseOneMoreHop),
                      diversityNudged := p.diversityNudged || nudge == Some(SecondAngle),
                      nudges := p.nudges + [nudge.value]));
      assert s.ToolsBefore(k + 1) == s.ToolsBefore(k);
    } else {
      next := Some(p.(investigated := true,
                      toolCallCount := p.toolCallCount + |msg.toolCalls|,
                      distinctTools := p.distinctTools + set name | name in msg.toolCalls));
    }
  }

  /** The investigation loop. It makes at most nine Chat calls and returns the reply of the
      round where the run ends. */
  method RunToolLoop(s: Session)
    returns (answer: Option<string>, investigated: bool, distinct: nat, calls: nat, nudges: seq<Nudge>)
    ensures 0 < calls <= MAX_TOOL_CALLS + 1 && s.EndsAt(calls - 1)
    ensures answer == s.AnswerAt(calls - 1)
    ensures investigated == s.Investigated(calls - 1)
    ensures distinct == |s.ToolNames(calls - 1)|
    ensures nudges == s.NudgesBefore(calls - 1)
  {
    var round, p := 0, START;
    while round < MAX_TOOL_CALLS
      invariant round <= MAX_TOOL_CALLS
      invariant Tracks(s, round, p)
      invariant forall j: nat | j < round :: !s.Stops(j)
    {
      var next := PlayRound(s, round, p);
      if next == None {
        break;
      }
      round, p := round + 1, next.value;
    }
    return s.AnswerAt(round), p.investigated, |p.distinctTools|, round + 1, p.nudges;
  }

  lemma CountAfter(nudges: seq<Nudge>, nudge: Option<Nudge>, counted: Nudge)
    ensures multiset(nudges + (if nudge.Some? then [nudge.value] else []))[counted]
         == multiset(nudges)[counted] + (if nudge == Some(counted) then 1 else 0)
  {
  }

  /** Each of the two one-time nudges is sent at most once, however the model replies. */
  lemma {:induction false} OneTimeNudges(s: Session, k: nat)
    ensures multiset(s.NudgesBefore(k))[ChaseOneMoreHop] == (if s.Chased(k) then 1 else 0)
    ensures multiset(s.NudgesBefore(k))[SecondAngle] == (if s.Diversified(k) then 1 else 0)
  {
    if k > 0 {
      OneTimeNudges(s, k - 1);
      CountAfter(s.NudgesBefore(k - 1), s.NudgeAt(k - 1), ChaseOneMoreHop);
      CountAfter(s.NudgesBefore(k - 1), s.NudgeAt(k - 1), SecondAngle);
    }
  }

  lemma {:induction false} InvestigatedStays(s: Session, m: nat, k: nat)
    requires m <= k && s.Investigated(m)
    ensures s.Investigated(k)
    decreases k
  {
    if m < k {
      InvestigatedStays(s, m, k - 1);
    }
  }

  /** Once any tool was called, at most two further attempts can be turned down. */
  lemma {:induction false} TwoRefusalsAfterInvestigation(s: Session, m: nat, k: nat)
    requires m <= k && s.Investigated(m)
    ensures |s.NudgesBefore(k)| - |s.NudgesBefore(m)| <= 2
  {
    RefusalsAreOneTime(s, m, k);
  }

  lemma {:induction false} RefusalsAreOneTime(s: Session, m: nat, k: nat)
    requires m <= k && s.Investigated(m)
    ensures |s.NudgesBefore(k)| - |s.NudgesBefore(m)|
         == (if s.Chased(k) && !s.Chased(m) then 1 else 0)
          + (if s.Diversified(k) && !s.Diversified(m) then 1 else 0)
    ensures s.Chased(m) ==> s.Chased(k)
    ensures s.Diversified(m) ==> s.Diversified(k)
    decreases k
  {
    if m < k {
      RefusalsAreOneTime(s, m, k - 1);
      InvestigatedStays(s, m, k - 1);
    }
  }

  /** On a gated surface an answer is uninvestigated exactly when the model answered all eight
      rounds without a tool call, so that only the forced ninth call ended the run. */
  lemma UninvestigatedAnswer(s: Session, k: nat)
    requires s.gated && s.EndsAt(k) && s.AnswerAt(k).Some?
    ensures !s.Investigated(k)
        <==> k == MAX_TOOL_CALLS && forall j: nat | j < MAX_TOOL_CALLS :: s.Attempt(j)
  {
    if forall j: nat | j < k :: s.Attempt(j) {
      NoToolsWithoutCalls(s, k);
    } else {
      var j: nat :| j < k && !s.Attempt(j);
      assert !s.Stops(j);
      assert s.Investigated(j + 1);
      InvestigatedStays(s, j + 1, k);
    }
  }

  lemma {:induction false} NoToolsWithoutCalls(s: Session, k: nat)
    requires forall j: nat | j < k :: s.Attempt(j)
    ensures s.ToolsBefore(k) == []
  {
    if k > 0 {
      NoToolsWithoutCalls(s, k - 1);
      assert s.Attempt(k - 1);
    }
  }

  // ---- What the gates ask of the replies --------------------------------------------------------

  /** The reply of round j is taken as the answer, in terms of the replies and the prompts sent. */
  ghost predicate IsTaken(s: Session, j: nat) {
    && s.chat(j).Message? && s.chat(j).toolCalls == []
    && (s.gated ==>
          && s.ToolsBefore(j) != []
          && (s.parse(s.chat(j).content).exploitable ==>
                && (|s.ToolsBefore(j)| >= 2 || ChaseOneMoreHop in s.NudgesBefore(j))
                && (s.parse(s.chat(j).content).confidence >= 0.85 ==>
                      |s.ToolNames(j)| >= 2 || SecondAngle in s.NudgesBefore(j))))
  }

  /** The prompt that round j's reply calls for: none for a failed call, for a tool call, and for
      an answer that is taken. */
  ghost predicate CallsFor(s: Session, j: nat, nudge: Option<Nudge>) {
    match nudge
    case None => s.chat(j).ChatFailed? || s.chat(j).toolCalls != [] || IsTaken(s, j)
    case Some(n) =>
      && s.chat(j).Message? && s.chat(j).toolCalls == [] && s.gated
      && match n
         case CallATool => s.ToolsBefore(j) == []
         case ChaseOneMoreHop =>
           && 1 == |s.ToolsBefore(j)| && ChaseOneMoreHop !in s.NudgesBefore(j)
           && s.parse(s.chat(j).content).exploitable
         case SecondAngle =>
           && 1 == |s.ToolNames(j)| && SecondAngle !in s.NudgesBefore(j)
           && s.parse(s.chat(j).content).exploitable && s.parse(s.chat(j).content).confidence >= 0.85
           && (|s.ToolsBefore(j)| >= 2 || ChaseOneMoreHop in s.NudgesBefore(j))
  }

  lemma SentExactly(s: Session, k: nat)
    ensures ChaseOneMoreHop in s.NudgesBefore(k) <==> s.Chased(k)
    ensures SecondAngle in s.NudgesBefore(k) <==> s.Diversified(k)
  {
    OneTimeNudges(s, k);
    assert forall n :: n in s.NudgesBefore(k) <==> multiset(s.NudgesBefore(k))[n] > 0;
  }

  lemma NamesAndCalls(s: Session, k: nat)
    ensures s.ToolsBefore(k) != [] ==> |s.ToolNames(k)| >= 1
  {
    if s.ToolsBefore(k) != [] {
      assert s.ToolsBefore(k)[0] in s.ToolNames(k);
    }
  }

  lemma OneMorePrompt(before: seq<Nudge>, a: Option<Nudge>, b: Option<Nudge>)
    ensures before + (if a.Some? then [a.value] else []) == before + (if b.Some? then [b.value] else []) <==> a == b
  {
    var x, y := if a.Some? then [a.value] else [], if b.Some? then [b.value] else [];
    assert (before + x)[|before|..] == x && (before + y)[|before|..] == y;
    assert a.Some? && b.Some? && x == y ==> x[0] == y[0];
  }

  /** Each reply gets exactly the prompt it calls for, and the tool calls of each are counted. */
  lemma EachReplyGetsItsPrompt(s: Session, k: nat, nudge: Option<Nudge>)
    ensures CallsFor(s, k, nudge)
       <==> s.NudgesBefore(k + 1) == s.NudgesBefore(k) + (if nudge.Some? then [nudge.value] else [])
    ensures s.ToolsBefore(k + 1) == s.ToolsBefore(k) + (if s.chat(k).Message? then s.chat(k).toolCalls else [])
    ensures s.ToolsBefore(0) == [] && s.NudgesBefore(0) == []
  {
    SentExactly(s, k);
    NamesAndCalls(s, k);
    var sent := s.NudgeAt(k);
    assert CallsFor(s, k, nudge) <==> nudge == sent;
    OneMorePrompt(s.NudgesBefore(k), sent, nudge);
  }

  /** A run ends with the first failed call or taken answer, or else with the ninth call; the
      answer is the content of that reply, and the evidence are the tools called before it. */
  lemma RunEndsExactlyWhen(s: Session, k: nat)
    ensures s.EndsAt(k) <==>
      && k <= 8 && (k < 8 ==> s.chat(k).ChatFailed? || IsTaken(s, k))
      && forall j: nat | j < k :: s.chat(j).Message? && !IsTaken(s, j)
    ensures s.AnswerAt(k) == if s.chat(k).Message? then Some(s.chat(k).content) else None
    ensures s.Investigated(k) <==> s.ToolsBefore(k) != []
    ensures forall name :: name in s.ToolNames(k) <==> name in s.ToolsBefore(k)
  {
    forall j: nat ensures s.Stops(j) <==> s.chat(j).ChatFailed? || IsTaken(s, j) {
      SentExactly(s, j);
      NamesAndCalls(s, j);
    }
  }

  /** On a rulebook CWE an exploitable answer before the ninth call follows two tool calls or the
      prompt for one more hop and, at 0.85 or more, two tools or the prompt for a second angle; and
      no not-exploitable answer after a tool call is ever turned down. */
  lemma ExploitableAnswersAreChased(s: Session, k: nat)
    requires s.gated && s.EndsAt(k) && k < 8 && s.chat(k).Message?
    ensures s.ToolsBefore(k) != []
    ensures s.parse(s.chat(k).content).exploitable ==> |s.ToolsBefore(k)| >= 2 || ChaseOneMoreHop in s.NudgesBefore(k)
    ensures s.parse(s.chat(k).content).exploitable && s.parse(s.chat(k).content).confidence >= 0.85 ==>
      |s.ToolNames(k)| >= 2 || SecondAngle in s.NudgesBefore(k)
    ensures forall j: nat | j < k && s.chat(j).Message? && s.chat(j).toolCalls == [] && s.ToolsBefore(j) != [] ::
      s.parse(s.chat(j).content).exploitable
  {
    RunEndsExactlyWhen(s, k);
  }

  /** In particular one exploitable answer after a single hop does not end a run. */
  lemma OneHopIsChased(s: Session, tool: string, claim: string, confidence: real, k: nat)
    requires s.gated && s.chat(0) == Message([tool], "") && s.chat(1) == Message([], claim)
    requires s.parse(claim).exploitable && s.parse(claim).confidence == confidence && s.EndsAt(k)
    ensures k > 1 && s.NudgesBefore(2) == [ChaseOneMoreHop]
  {
    EachReplyGetsItsPrompt(s, 0, None);
    assert s.ToolsBefore(1) == [tool];
    assert s.NudgesBefore(1) == [];
    EachReplyGetsItsPrompt(s, 1, Some(ChaseOneMoreHop));
    RunEndsExactlyWhen(s, k);
    assert !IsTaken(s, 0) && !IsTaken(s, 1);
  }
}
