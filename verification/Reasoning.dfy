/** What the LLM reasoner's findings do to the contract violations, and what the reasoning path
    sends in the end (internal/pipeline/reasoning.go). */
module Reasoning {
  import opened Findings
  import opened Surfaces
  import opened Investigation
  import opened Verdicts
  import Contracts
  import SinkContext
  import Text

  const ELEVATION_THRESHOLD := 0.7
  const SUPPRESSION_THRESHOLD := 0.75

  datatype Effect = Suppresses | Elevates | NoChange

  predicate CweMismatch(f: Finding, orig: Finding) {
    f.cwe != "" && orig.cwe != "" && f.cwe != orig.cwe
  }

  function EffectOn(f: Finding, orig: Finding): Effect {
    if !f.exploitable && f.confidence >= SUPPRESSION_THRESHOLD && !CweMismatch(f, orig) then Suppresses
    else if f.exploitable && f.confidence >= ELEVATION_THRESHOLD then Elevates
    else NoChange
  }

  /** The violation orig as it leaves the reasoning path when B5 reported f about its surface. */
  function Settle(f: Finding, orig: Finding): Finding {
    match EffectOn(f, orig)
    case Suppresses =>
      orig.(severity := Suppressed, pinned := true,
            suppressReason := if f.taintMismatch then "false_positive" else "safe")
    case Elevates =>
      orig.(severity := SeverityFromConfidence(f.confidence), confidence := f.confidence,
            exploitable := f.exploitable, taintMismatch := f.taintMismatch, pinned := true)
    case NoChange => orig
  }

  // ---- One verdict against one violation -----------------------------------------------

  /** A not-exploitable verdict at 0.75 or more, investigated where that is required, on no other
      CWE than the violation's. */
  predicate Dismisses(v: Verdict, e: Evidence, f: Finding, orig: Finding) {
    && !v.exploitable && v.confidence >= 0.75 && (e.gated ==> e.investigated)
    && (f.cwe == "" || orig.cwe == "" || f.cwe == orig.cwe)
  }

  /** An exploitable verdict at 0.7 or more without hedging, after a tool call and at 0.85 or more
      two tools where investigation is required, that a second opinion of NO does not reach or
      does not bring below 0.7. */
  ghost predicate Confirms(v: Verdict, e: Evidence, probe: Option<string>) {
    && v.exploitable && v.confidence >= 0.7 && !IsHedged(v.explanation)
    && (e.gated ==> e.investigated && (v.confidence >= 0.85 ==> e.distinct >= 2))
    && (AnswersNo(probe) ==> v.confidence < 0.85 || v.confidence >= 1.0)
  }

  /** A violation is dismissed exactly by a confident not-exploitable verdict on the same CWE
      that was investigated where investigation is required. */
  lemma SuppressedExactlyWhen(s: Surface, v: Verdict, e: Evidence, probe: Option<string>, f: Finding, orig: Finding)
    requires Reports(s, v, e, probe, f)
    ensures EffectOn(f, orig) == Suppresses <==> Dismisses(v, e, f, orig)
  {
  }

  /** A violation is confirmed exactly by an exploitable verdict at 0.7 or more that no guard
      capped and that the second opinion, where it was asked for and said NO, could not bring
      below 0.7; with confidences up to 1 that takes the full 1.0. */
  lemma ElevatedExactlyWhen(s: Surface, v: Verdict, e: Evidence, probe: Option<string>, f: Finding, orig: Finding)
    requires Reports(s, v, e, probe, f)
    ensures EffectOn(f, orig) == Elevates <==> Confirms(v, e, probe)
  {
    ReportedExactly(s, v, e, probe, f);
  }

  /** Without a single tool call, a verdict on a rulebook CWE neither dismisses nor confirms. */
  lemma UninvestigatedChangesNothing(s: Surface, v: Verdict, e: Evidence, probe: Option<string>, f: Finding, orig: Finding)
    requires Reports(s, v, e, probe, f)
    requires e.gated && !e.investigated
    ensures EffectOn(f, orig) == NoChange && Settle(f, orig) == orig
  {
  }

  /** A confirmation at 0.85 or more on a rulebook CWE rests on two different tools. */
  lemma HighConfidenceTakesTwoTools(s: Surface, v: Verdict, e: Evidence, probe: Option<string>, f: Finding, orig: Finding)
    requires Reports(s, v, e, probe, f)
    requires e.gated && EffectOn(f, orig) == Elevates && f.confidence >= DUAL_TOOL_THRESHOLD
    ensures e.investigated && e.distinct >= 2
  {
  }

  /** A second opinion of NO lowers the confidence but never dismisses the violation. */
  lemma SecondOpinionNeverSuppresses(s: Surface, v: Verdict, e: Evidence, probe: Option<string>, f: Finding, orig: Finding)
    requires Reports(s, v, e, probe, f) && Doubted(v, e, probe)
    ensures EffectOn(f, orig) != Suppresses && f.confidence < v.confidence
  {
  }

  /** But it does not prevent elevation at the full confidence of 1.0: after two tools, an
      exploitable verdict that the probe answers with NO is elevated at 0.7. */
  lemma DoubtedVerdictCanElevate(s: Surface, orig: Finding) returns (f: Finding)
    ensures var v, e := Verdict(true, "CWE-89", "HIGH", 1.0, "", false), Evidence(true, true, 2);
      && Reports(s, v, e, Some("NO"), f) && Doubted(v, e, Some("NO"))
      && f.confidence == 0.7 && EffectOn(f, orig) == Elevates
  {
    var v, e := Verdict(true, "CWE-89", "HIGH", 1.0, "", false), Evidence(true, true, 2);
    NothingHedges();
    NoSaysNo();
    f := VerdictToFinding(s, v.(confidence := 0.7));
  }

  lemma NothingHedges()
    ensures !Hedges("")
  {
    assert Text.Lower("") == "";
    forall i | 0 <= i < |HEDGE_WORDS| ensures !Text.Contains("", HEDGE_WORDS[i]) {
      assert |HEDGE_WORDS[i]| > 0;
    }
  }

  lemma NoSaysNo()
    ensures SaysNo("NO")
  {
    assert Text.Upper("NO") == "NO";
    assert Text.At("NO", "NO", 0);
  }

  /** An elevated violation becomes HIGH or BLOCK exactly from 0.75 on. */
  lemma ElevatedSeverity(f: Finding, orig: Finding)
    requires EffectOn(f, orig) == Elevates
    ensures Settle(f, orig).severity in {Block, High} <==> f.confidence >= CONF_HIGH
  {
  }

  /** Between the elevation threshold 0.7 and 0.75 an elevated MEDIUM violation stays MEDIUM. */
  lemma ElevatedToMedium(f: Finding, orig: Finding)
    requires f.exploitable && f.confidence == 0.72 && orig.severity == Medium
    ensures EffectOn(f, orig) == Elevates && Settle(f, orig).severity == orig.severity
  {
  }

  /** Over a whole conversation: a model that answers every round without calling a tool cannot
      change any violation on a gated surface, whatever it claims and whenever. */
  lemma SilentModelChangesNothing(session: Session, k: nat, s: Surface, v: Verdict, e: Evidence,
                                  probe: Option<string>, f: Finding, orig: Finding)
    requires session.gated && session.EndsAt(k) && session.AnswerAt(k).Some?
    requires forall j: nat | j < MAX_TOOL_CALLS :: session.Attempt(j)
    requires e == Evidence(true, session.Investigated(k), |session.ToolNames(k)|)
    requires Reports(s, v, e, probe, f)
    ensures k == MAX_TOOL_CALLS && EffectOn(f, orig) == NoChange
  {
    if k < MAX_TOOL_CALLS {
      NoToolsWithoutCalls(session, k);
      assert session.Stops(k) && session.Attempt(k);
    }
    UninvestigatedAnswer(session, k);
    UninvestigatedChangesNothing(s, v, e, probe, f, orig);
  }

  /** The evidence with which a run that ends in round k leaves the loop. */
  function EvidenceOf(session: Session, k: nat): Evidence {
    Evidence(session.gated, session.Investigated(k), |session.ToolNames(k)|)
  }

  /** Before round k the model called a tool of this name. */
  ghost predicate CalledBefore(session: Session, k: nat, name: string) {
    exists j: nat :: j < k && name in session.ToolsAt(j)
  }

  lemma {:induction false} ToolsWereCalled(session: Session, k: nat, name: string)
    ensures name in session.ToolsBefore(k) <==> CalledBefore(session, k, name)
  {
    if k > 0 {
      ToolsWereCalled(session, k - 1, name);
      if name in session.ToolsAt(k - 1) {
        assert CalledBefore(session, k, name);
      }
    }
  }

  /** What every run on a rulebook CWE keeps, whatever the model replies: at most nine Chat calls;
      every answer before the ninth follows a tool call; so does every answer that changes the
      violation; a violation elevated at 0.85 or more follows calls of two different tools; and
      one dismissed was not doubted by the second opinion. */
  lemma EveryRunKeeps(session: Session, k: nat, s: Surface, v: Verdict, probe: Option<string>, f: Finding, orig: Finding)
    requires session.gated && session.EndsAt(k) && session.AnswerAt(k).Some?
    requires Reports(s, v, EvidenceOf(session, k), probe, f)
    ensures k + 1 <= 9
    ensures k < MAX_TOOL_CALLS ==> exists name :: CalledBefore(session, k, name)
    ensures EffectOn(f, orig) != NoChange ==> exists name :: CalledBefore(session, k, name)
    ensures EffectOn(f, orig) == Elevates && f.confidence >= DUAL_TOOL_THRESHOLD ==>
      exists a, b :: a != b && CalledBefore(session, k, a) && CalledBefore(session, k, b)
    ensures EffectOn(f, orig) == Suppresses ==> !Doubted(v, EvidenceOf(session, k), probe)
  {
    var tools := session.ToolsBefore(k);
    if tools != [] {
      ToolsWereCalled(session, k, tools[0]);
    }
    UninvestigatedAnswer(session, k);
    if EffectOn(f, orig) == Elevates && f.confidence >= DUAL_TOOL_THRESHOLD {
      HighConfidenceTakesTwoTools(s, v, EvidenceOf(session, k), probe, f, orig);
      var a, b := TwoElements(session.ToolNames(k));
      ToolsWereCalled(session, k, a);
      ToolsWereCalled(session, k, b);
    }
  }

  lemma TwoElements(names: set<string>) returns (a: string, b: string)
    requires |names| >= 2
    ensures a in names && b in names && a != b
  {
    a :| a in names;
    var others := names - {a};
    assert |others| == |names| - 1;
    b :| b in others;
  }

  // ---- The whole path ------------------------------------------------------------------

  /** Each B5 finding in order: settled if it changes its violation, passed through if its
      surface has none, dropped here otherwise. */
  function Processed(fs: seq<Finding>, violations: map<string, Finding>): seq<Finding> {
    if fs == [] then []
    else
      var f := fs[|fs| - 1];
      Processed(fs[..|fs| - 1], violations) +
      if f.surfaceID !in violations then [f]
      else if EffectOn(f, violations[f.surfaceID]) == NoChange then []
      else [Settle(f, violations[f.surfaceID])]
  }

  method ProcessB5Findings(fs: seq<Finding>, violations: map<string, Finding>)
    returns (out: seq<Finding>, handled: set<string>)
    ensures out == Processed(fs, violations)
    ensures forall sid :: sid in handled <==>
      sid in violations && exists i | 0 <= i < |fs| :: fs[i].surfaceID == sid && EffectOn(fs[i], violations[sid]) != NoChange
  {
    out, handled := [], {};
    var i := 0;
    while i < |fs|
      invariant 0 <= i <= |fs|
      invariant out == Processed(fs[..i], violations)
      invariant forall sid :: sid in handled <==>
        sid in violations && exists h | 0 <= h < i :: fs[h].surfaceID == sid && EffectOn(fs[h], violations[sid]) != NoChange
    {
      assert fs[..i + 1][..i] == fs[..i];
      var f := fs[i];
      if f.surfaceID !in violations {
        out := out + [f];
      } else {
        var orig := violations[f.surfaceID];
        if !f.exploitable && f.confidence >= SUPPRESSION_THRESHOLD && !CweMismatch(f, orig) {
          var reason := if f.taintMismatch then "false_positive" else "safe";
          out := out + [orig.(severity := Suppressed, pinned := true, suppressReason := reason)];
          handled := handled + {f.surfaceID};
        } else if f.exploitable && f.confidence >= ELEVATION_THRESHOLD {
          out := out + [orig.(severity := SeverityFromConfidence(f.confidence), confidence := f.confidence,
                              exploitable := f.exploitable, taintMismatch := f.taintMismatch, pinned := true)];
          handled := handled + {f.surfaceID};
        }
      }
      i := i + 1;
    }
    assert fs[..i] == fs;
  }

  function IDs(queue: seq<Surface>): set<string> {
    set i | 0 <= i < |queue| :: queue[i].id
  }

  predicate DistinctIDs(queue: seq<Surface>) {
    forall i, j | 0 <= i < j < |queue| :: queue[i].id != queue[j].id
  }

  /** The queue with only the first surface of every ID. */
  function FirstOfEachID(queue: seq<Surface>): (first: seq<Surface>)
    ensures |first| <= |queue|
  {
    if queue == [] then []
    else
      var n := |queue| - 1;
      var before := FirstOfEachID(queue[..n]);
      if queue[n].id in IDs(before) then before else before + [queue[n]]
  }

  lemma IDsOfSnoc(queue: seq<Surface>, surface: Surface)
    ensures IDs(queue + [surface]) == IDs(queue) + {surface.id}
  {
    var longer := queue + [surface];
    forall id | id in IDs(queue) + {surface.id} ensures id in IDs(longer) {
      if id in IDs(queue) {
        var i :| 0 <= i < |queue| && queue[i].id == id;
        assert longer[i].id == id;
      } else {
        assert longer[|queue|].id == id;
      }
    }
  }

  /** No surface ID is lost and none is queued twice. */
  lemma {:induction false} FirstOfEachIDIsFaithful(queue: seq<Surface>)
    ensures DistinctIDs(FirstOfEachID(queue))
    ensures IDs(FirstOfEachID(queue)) == IDs(queue)
    ensures forall s | s in FirstOfEachID(queue) :: s in queue
  {
    if queue != [] {
      var n := |queue| - 1;
      var before := FirstOfEachID(queue[..n]);
      FirstOfEachIDIsFaithful(queue[..n]);
      IDsOfSnoc(queue[..n], queue[n]);
      IDsOfSnoc(before, queue[n]);
      assert queue == queue[..n] + [queue[n]];
    }
  }

  lemma FirstSnoc(queue: seq<Surface>, i: nat)
    requires i < |queue|
    ensures var before := FirstOfEachID(queue[..i]);
      FirstOfEachID(queue[..i + 1]) == if queue[i].id in IDs(before) then before else before + [queue[i]]
  {
    assert queue[..i + 1][..i] == queue[..i];
  }

  /** Deduplication of the B5 queue. The result grows inside the array it is read from; a write
      never reaches a position that is still to be read. */
  method DedupInPlace(a: array<Surface>) returns (n: nat)
    modifies a
    ensures n <= a.Length
    ensures a[..n] == FirstOfEachID(old(a[..]))
  {
    ghost var queue := a[..];
    var seen: set<string> := {};
    var i := 0;
    n := 0;
    while i < a.Length
      invariant 0 <= n <= i <= a.Length
      invariant a[i..] == queue[i..]
      invariant a[..n] == FirstOfEachID(queue[..i])
      invariant seen == IDs(a[..n])
    {
      var surface := a[i];
      assert surface == a[i..][0] == queue[i];
      assert a[i + 1..] == a[i..][1..] == queue[i + 1..];
      FirstSnoc(queue, i);
      IDsOfSnoc(a[..n], surface);
      if surface.id !in seen {
        ghost var kept, rest := a[..n], a[i + 1..];
        seen := seen + {surface.id};
        a[n] := surface;
        n := n + 1;
        assert a[..n] == kept + [surface];
        assert a[i + 1..] == rest;
      }
      i := i + 1;
    }
    assert queue[..i] == queue;
  }

  // ---- Nothing is lost, nothing is sent twice -------------------------------------------

  /** scan is the analysis of a surface; its finding, if any, carries the surface's ID, as
      Reports says of every finding that ScanOne returns. */
  ghost predicate KeepsSurfaceID(scan: Surface -> Option<Finding>) {
    forall s :: scan(s).Some? ==> scan(s).value.surfaceID == s.id
  }

  predicate FiledUnderID(filed: map<string, Finding>) {
    forall sid | sid in filed :: filed[sid].surfaceID == sid
  }

  function Scanned(queue: seq<Surface>, scan: Surface -> Option<Finding>): seq<Finding> {
    if queue == [] then []
    else
      var last := scan(queue[|queue| - 1]);
      Scanned(queue[..|queue| - 1], scan) + if last.Some? then [last.value] else []
  }

  /** What B5's look at one queued surface sends at once. */
  function Emission(q: Surface, scan: Surface -> Option<Finding>, filed: map<string, Finding>): Option<Finding> {
    if scan(q) == None then None
    else if scan(q).value.surfaceID !in filed then scan(q)
    else if EffectOn(scan(q).value, filed[scan(q).value.surfaceID]) == NoChange then None
    else Some(Settle(scan(q).value, filed[scan(q).value.surfaceID]))
  }

  /** The final word on the violation filed for a queued surface. */
  function Settled(q: Surface, scan: Surface -> Option<Finding>, orig: Finding): Finding {
    if scan(q).Some? then Settle(scan(q).value, orig) else orig
  }

  ghost predicate Sends(rest: seq<Finding>, sid: string) {
    exists i | 0 <= i < |rest| :: rest[i].surfaceID == sid
  }

  predicate OncePerSurface(rest: seq<Finding>) {
    forall i, j | 0 <= i < j < |rest| :: rest[i].surfaceID != rest[j].surfaceID
  }

  function Emissions(queue: seq<Surface>, scan: Surface -> Option<Finding>, filed: map<string, Finding>): seq<Finding> {
    if queue == [] then []
    else
      var last := Emission(queue[|queue| - 1], scan, filed);
      Emissions(queue[..|queue| - 1], scan, filed) + if last.Some? then [last.value] else []
  }

  /** Scanning the queue and then processing the findings sends each surface's emission. */
  lemma {:induction false} ProcessedIsEmissions(queue: seq<Surface>, scan: Surface -> Option<Finding>, filed: map<string, Finding>)
    requires KeepsSurfaceID(scan)
    ensures Processed(Scanned(queue, scan), filed) == Emissions(queue, scan, filed)
  {
    if queue != [] {
      var init, q := queue[..|queue| - 1], queue[|queue| - 1];
      ProcessedIsEmissions(init, scan, filed);
      var fs := Scanned(queue, scan);
      if scan(q).Some? {
        assert fs[..|fs| - 1] == Scanned(init, scan);
      } else {
        assert fs == Scanned(init, scan);
      }
    }
  }

  lemma {:induction false} EmissionsComeFromTheQueue(queue: seq<Surface>, scan: Surface -> Option<Finding>, filed: map<string, Finding>, f: Finding)
    returns (q: Surface)
    requires KeepsSurfaceID(scan) && FiledUnderID(filed) && f in Emissions(queue, scan, filed)
    ensures q in queue && q.id == f.surfaceID && Emission(q, scan, filed) == Some(f)
  {
    q := queue[|queue| - 1];
    if Emission(q, scan, filed) != Some(f) {
      q := EmissionsComeFromTheQueue(queue[..|queue| - 1], scan, filed, f);
    }
  }

  lemma {:induction false} EmissionsAreSent(queue: seq<Surface>, scan: Surface -> Option<Finding>, filed: map<string, Finding>, q: Surface)
    requires q in queue && Emission(q, scan, filed).Some?
    ensures Emission(q, scan, filed).value in Emissions(queue, scan, filed)
  {
    var last := |queue| - 1;
    if queue[last] != q {
      assert queue == queue[..last] + [queue[last]];
      EmissionsAreSent(queue[..last], scan, filed, q);
    }
  }

  lemma {:induction false} EmissionsOncePerSurface(queue: seq<Surface>, scan: Surface -> Option<Finding>, filed: map<string, Finding>)
    requires KeepsSurfaceID(scan) && FiledUnderID(filed) && DistinctIDs(queue)
    ensures OncePerSurface(Emissions(queue, scan, filed))
  {
    if queue != [] {
      var init, q := queue[..|queue| - 1], queue[|queue| - 1];
      EmissionsOncePerSurface(init, scan, filed);
      forall f | f in Emissions(init, scan, filed) ensures f.surfaceID != q.id {
        var p := EmissionsComeFromTheQueue(init, scan, filed, f);
      }
    }
  }

  /** f is what the queued surface q contributes in the end. */
  ghost predicate Accounts(q: Surface, scan: Surface -> Option<Finding>, filed: map<string, Finding>, f: Finding) {
    && q.id == f.surfaceID
    && if q.id in filed then f == Settled(q, scan, filed[q.id]) else scan(q) == Some(f)
  }

  ghost predicate Accounted(queue: seq<Surface>, scan: Surface -> Option<Finding>, filed: map<string, Finding>, f: Finding) {
    exists q | q in queue :: Accounts(q, scan, filed, f)
  }

  /** The account of one reasoning pass: after the crypto findings, each surface ID is sent at
      most once; it is sent exactly if a violation is filed under it or B5 reported on it; a
      filed violation is sent as settled by B5 and every other B5 finding as it is. */
  ghost predicate Ledger(rest: seq<Finding>, queue: seq<Surface>, scan: Surface -> Option<Finding>, filed: map<string, Finding>) {
    && OncePerSurface(rest)
    && (forall sid :: Sends(rest, sid) <==> sid in filed || exists q | q in queue :: q.id == sid && scan(q).Some?)
    && (forall i | 0 <= i < |rest| :: Accounted(queue, scan, filed, rest[i]))
  }

  /** The violations B5 left alone, in some order. */
  method Leftovers(filed: map<string, Finding>, handled: set<string>) returns (out: seq<Finding>)
    requires FiledUnderID(filed)
    ensures OncePerSurface(out)
    ensures forall sid :: Sends(out, sid) <==> sid in filed && sid !in handled
    ensures forall i | 0 <= i < |out| :: out[i].surfaceID in filed && out[i] == filed[out[i].surfaceID]
  {
    out := [];
    var todo := filed.Keys;
    while todo != {}
      invariant todo <= filed.Keys
      invariant OncePerSurface(out)
      invariant forall sid :: Sends(out, sid) <==> sid in filed && sid !in todo && sid !in handled
      invariant forall i | 0 <= i < |out| :: out[i].surfaceID in filed && out[i] == filed[out[i].surfaceID]
    {
      var sid :| sid in todo;
      todo := todo - {sid};
      if sid !in handled {
        ghost var before := out;
        assert !Sends(before, sid);
        out := out + [filed[sid]];
        assert out[|before|].surfaceID == sid;
        assert forall id :: Sends(before, id) ==> Sends(out, id) by {
          forall id | Sends(before, id) ensures Sends(out, id) {
            var i :| 0 <= i < |before| && before[i].surfaceID == id;
            assert out[i].surfaceID == id;
          }
        }
      }
    }
  }

  /** Settled B5 results followed by the violations that B5 did not change make up the ledger. */
  lemma LedgerHolds(queue: seq<Surface>, scan: Surface -> Option<Finding>, filed: map<string, Finding>,
                    handled: set<string>, left: seq<Finding>)
    requires KeepsSurfaceID(scan) && FiledUnderID(filed) && DistinctIDs(queue)
    requires filed.Keys <= IDs(queue)
    requires forall sid :: sid in handled <==> sid in filed && Sends(Emissions(queue, scan, filed), sid)
    requires OncePerSurface(left)
    requires forall sid :: Sends(left, sid) <==> sid in filed && sid !in handled
    requires forall i | 0 <= i < |left| :: left[i].surfaceID in filed && left[i] == filed[left[i].surfaceID]
    ensures Ledger(Emissions(queue, scan, filed) + left, queue, scan, filed)
  {
    var out := Emissions(queue, scan, filed);
    EmissionsOncePerSurface(queue, scan, filed);
    OnceConcat(out, left);
    forall sid ensures Sends(out + left, sid) <==> sid in filed || exists q | q in queue :: q.id == sid && scan(q).Some? {
      SendsConcat(out, left, sid);
      if sid !in filed {
        WhoIsSent(queue, scan, filed, sid);
      }
    }
    EveryFindingAccounted(queue, scan, filed, handled, left);
  }

  lemma EveryFindingAccounted(queue: seq<Surface>, scan: Surface -> Option<Finding>, filed: map<string, Finding>,
                              handled: set<string>, left: seq<Finding>)
    requires KeepsSurfaceID(scan) && FiledUnderID(filed) && filed.Keys <= IDs(queue)
    requires forall sid :: sid in handled <==> sid in filed && Sends(Emissions(queue, scan, filed), sid)
    requires forall sid :: Sends(left, sid) <==> sid in filed && sid !in handled
    requires forall i | 0 <= i < |left| :: left[i].surfaceID in filed && left[i] == filed[left[i].surfaceID]
    ensures var rest := Emissions(queue, scan, filed) + left;
      forall i | 0 <= i < |rest| :: Accounted(queue, scan, filed, rest[i])
  {
    var out := Emissions(queue, scan, filed);
    var rest := out + left;
    forall i | 0 <= i < |rest| ensures Accounted(queue, scan, filed, rest[i]) {
      if i < |out| {
        var q := EmissionsComeFromTheQueue(queue, scan, filed, out[i]);
        assert Accounts(q, scan, filed, rest[i]);
      } else {
        assert Sends(left, left[i - |out|].surfaceID);
        LeftoverAccounts(queue, scan, filed, left[i - |out|]);
      }
    }
  }

  lemma OnceConcat(out: seq<Finding>, left: seq<Finding>)
    requires OncePerSurface(out) && OncePerSurface(left)
    requires forall sid :: !(Sends(out, sid) && Sends(left, sid))
    ensures OncePerSurface(out + left)
  {
    forall i, j | 0 <= i < |out| && 0 <= j < |left| ensures out[i].surfaceID != left[j].surfaceID {
      assert !(Sends(out, out[i].surfaceID) && Sends(left, out[i].surfaceID));
    }
  }

  lemma WhoIsSent(queue: seq<Surface>, scan: Surface -> Option<Finding>, filed: map<string, Finding>, sid: string)
    requires KeepsSurfaceID(scan) && FiledUnderID(filed) && sid !in filed
    ensures Sends(Emissions(queue, scan, filed), sid) <==> exists q | q in queue :: q.id == sid && scan(q).Some?
  {
    var out := Emissions(queue, scan, filed);
    if Sends(out, sid) {
      var i :| 0 <= i < |out| && out[i].surfaceID == sid;
      var q := EmissionsComeFromTheQueue(queue, scan, filed, out[i]);
    }
    if q :| q in queue && q.id == sid && scan(q).Some? {
      EmissionsAreSent(queue, scan, filed, q);
    }
  }

  lemma LeftoverAccounts(queue: seq<Surface>, scan: Surface -> Option<Finding>, filed: map<string, Finding>, f: Finding)
    requires KeepsSurfaceID(scan) && FiledUnderID(filed) && f.surfaceID in IDs(queue)
    requires f.surfaceID in filed && f == filed[f.surfaceID]
    requires !Sends(Emissions(queue, scan, filed), f.surfaceID)
    ensures Accounted(queue, scan, filed, f)
  {
    var h :| 0 <= h < |queue| && queue[h].id == f.surfaceID;
    if Emission(queue[h], scan, filed).Some? {
      EmissionsAreSent(queue, scan, filed, queue[h]);
    }
    assert Accounts(queue[h], scan, filed, f);
  }

  lemma SendsConcat(out: seq<Finding>, left: seq<Finding>, sid: string)
    ensures Sends(out + left, sid) <==> Sends(out, sid) || Sends(left, sid)
  {
    if Sends(out, sid) {
      var i :| 0 <= i < |out| && out[i].surfaceID == sid;
      assert (out + left)[i].surfaceID == sid;
    } else if Sends(left, sid) {
      var i :| 0 <= i < |left| && left[i].surfaceID == sid;
      assert (out + left)[|out| + i].surfaceID == sid;
    }
  }

  // ---- runReasoning ---------------------------------------------------------------------

  function WithVerdict(results: seq<Contracts.Result>, v: Contracts.Judgement): seq<Contracts.Result> {
    if results == [] then []
    else
      var last := results[|results| - 1];
      WithVerdict(results[..|results| - 1], v) + if last.verdict == v then [last] else []
  }

  datatype Bucket = Confirmed | Weak | Dropped

  function TaintGateClassify(s: Surface): Bucket {
    if |s.sinkNodes| > 0 then Confirmed else if s.contractCWE != "" then Weak else Dropped
  }

  function InBucket(escalated: seq<Surface>, b: Bucket): seq<Surface> {
    if escalated == [] then []
    else
      var last := escalated[|escalated| - 1];
      InBucket(escalated[..|escalated| - 1], b) + if TaintGateClassify(last) == b then [last] else []
  }

  /** A violating surface as it is routed to B5: its contract CWE is the violated one. */
  function Routed(violations: seq<Contracts.Result>): seq<Surface> {
    if violations == [] then []
    else
      var last := violations[|violations| - 1];
      Routed(violations[..|violations| - 1]) + [last.surface.(contractCWE := last.cwe)]
  }

  /** The B5 queue before deduplication: strong taint, then violations, then weak taint. */
  function Candidates(violations: seq<Contracts.Result>, escalated: seq<Surface>): seq<Surface> {
    InBucket(escalated, Confirmed) + Routed(violations) + InBucket(escalated, Weak)
  }

  method SplitResults(results: seq<Contracts.Result>)
    returns (violations: seq<Contracts.Result>, inconclusives: seq<Contracts.Result>)
    ensures violations == WithVerdict(results, Contracts.Violation)
    ensures inconclusives == WithVerdict(results, Contracts.Inconclusive)
  {
    violations, inconclusives := [], [];
    var i := 0;
    while i < |results|
      invariant 0 <= i <= |results|
      invariant violations == WithVerdict(results[..i], Contracts.Violation)
      invariant inconclusives == WithVerdict(results[..i], Contracts.Inconclusive)
    {
      assert results[..i + 1][..i] == results[..i];
      match results[i].verdict {
        case Violation => violations := violations + [results[i]];
        case Inconclusive => inconclusives := inconclusives + [results[i]];
        case Safe =>
      }
      i := i + 1;
    }
    assert results[..i] == results;
  }

  /** f is the finding filed for the last violation of its surface. */
  ghost predicate FiledFor(violations: seq<Contracts.Result>, f: Finding) {
    exists i :: LastOf(violations, f.surfaceID, i) && SinkContext.IsFiled(f, violations[i].surface, violations[i].cwe)
  }

  predicate LastOf(violations: seq<Contracts.Result>, id: string, i: int) {
    && 0 <= i < |violations| && violations[i].surface.id == id
    && forall j | i < j < |violations| :: violations[j].surface.id != id
  }

  method FileViolations(violations: seq<Contracts.Result>) returns (filed: map<string, Finding>)
    ensures FiledUnderID(filed)
    ensures filed.Keys == IDs(Routed(violations))
    ensures forall sid | sid in filed :: FiledFor(violations, filed[sid])
  {
    filed := map[];
    var i := 0;
    while i < |violations|
      invariant 0 <= i <= |violations|
      invariant FiledUnderID(filed)
      invariant filed.Keys == IDs(Routed(violations[..i]))
      invariant forall sid | sid in filed :: FiledFor(violations[..i], filed[sid])
    {
      assert violations[..i + 1][..i] == violations[..i];
      var r := violations[i];
      IDsOfSnoc(Routed(violations[..i]), r.surface.(contractCWE := r.cwe));
      var f := SinkContext.ViolationToFinding(r.surface, r.cwe);
      forall sid | sid in filed && sid != r.surface.id ensures FiledFor(violations[..i + 1], filed[sid]) {
        StillFiledFor(violations, i, filed[sid]);
      }
      NewlyFiledFor(violations, i, f);
      filed := filed[r.surface.id := f];
      i := i + 1;
    }
    assert violations[..i] == violations;
  }

  lemma StillFiledFor(violations: seq<Contracts.Result>, n: nat, f: Finding)
    requires n < |violations| && FiledFor(violations[..n], f) && violations[n].surface.id != f.surfaceID
    ensures FiledFor(violations[..n + 1], f)
  {
    var i :| LastOf(violations[..n], f.surfaceID, i) && SinkContext.IsFiled(f, violations[..n][i].surface, violations[..n][i].cwe);
    assert violations[..n + 1] == violations[..n] + [violations[n]];
    assert LastOf(violations[..n + 1], f.surfaceID, i);
  }

  lemma NewlyFiledFor(violations: seq<Contracts.Result>, n: nat, f: Finding)
    requires n < |violations| && SinkContext.IsFiled(f, violations[n].surface, violations[n].cwe)
    ensures FiledFor(violations[..n + 1], f)
  {
    assert LastOf(violations[..n + 1], f.surfaceID, n);
  }

  method TaintGate(escalated: seq<Surface>) returns (strong: seq<Surface>, weak: seq<Surface>)
    ensures strong == InBucket(escalated, Confirmed) && weak == InBucket(escalated, Weak)
  {
    strong, weak := [], [];
    var i := 0;
    while i < |escalated|
      invariant 0 <= i <= |escalated|
      invariant strong == InBucket(escalated[..i], Confirmed) && weak == InBucket(escalated[..i], Weak)
    {
      assert escalated[..i + 1][..i] == escalated[..i];
      match TaintGateClassify(escalated[i]) {
        case Confirmed => strong := strong + [escalated[i]];
        case Weak => weak := weak + [escalated[i]];
        case Dropped =>
      }
      i := i + 1;
    }
    assert escalated[..i] == escalated;
  }

  method RouteViolations(violations: seq<Contracts.Result>) returns (routed: seq<Surface>)
    ensures routed == Routed(violations)
  {
    routed := [];
    var i := 0;
    while i < |violations|
      invariant 0 <= i <= |violations|
      invariant routed == Routed(violations[..i])
    {
      assert violations[..i + 1][..i] == violations[..i];
      routed := routed + [violations[i].surface.(contractCWE := violations[i].cwe)];
      i := i + 1;
    }
    assert violations[..i] == violations;
  }

  method ScanAll(queue: seq<Surface>, scan: Surface -> Option<Finding>) returns (fs: seq<Finding>)
    ensures fs == Scanned(queue, scan)
  {
    fs := [];
    var i := 0;
    while i < |queue|
      invariant 0 <= i <= |queue|
      invariant fs == Scanned(queue[..i], scan)
    {
      assert queue[..i + 1][..i] == queue[..i];
      var f := scan(queue[i]);
      if f.Some? {
        fs := fs + [f.value];
      }
      i := i + 1;
    }
    assert queue[..i] == queue;
  }

  /** The reasoning path from the contract results on. triage picks the inconclusive surfaces
      that are escalated; scan is the analysis of one surface. */
  method RunReasoning(crypto: seq<Finding>, results: seq<Contracts.Result>,
                      triage: seq<Contracts.Result> -> seq<Surface>, scan: Surface -> Option<Finding>)
    returns (sent: seq<Finding>, queue: seq<Surface>, filed: map<string, Finding>)
    requires KeepsSurfaceID(scan)
    ensures |crypto| <= |sent| && sent[..|crypto|] == crypto
    ensures var violations := WithVerdict(results, Contracts.Violation);
      && filed.Keys == IDs(Routed(violations))
      && (forall sid | sid in filed :: FiledFor(violations, filed[sid]))
      && queue == FirstOfEachID(Candidates(violations, triage(WithVerdict(results, Contracts.Inconclusive))))
    ensures Ledger(sent[|crypto|..], queue, scan, filed)
  {
    var violations, inconclusives := SplitResults(results);
    filed := FileViolations(violations);
    var strong, weak := TaintGate(triage(inconclusives));
    var routed := RouteViolations(violations);
    var allB5 := strong + routed + weak;
    queue := Deduplicated(allB5);
    ConcatKeepsIDs(strong, routed, weak);
    FirstOfEachIDIsFaithful(allB5);
    var analysisFindings := ScanAll(queue, scan);
    var b5Results, handled := ProcessB5Findings(analysisFindings, filed);
    ProcessedIsEmissions(queue, scan, filed);
    HandledAreSent(queue, scan, filed, handled);
    var left := Leftovers(filed, handled);
    LedgerHolds(queue, scan, filed, handled, left);
    sent := crypto + (b5Results + left);
    assert sent[|crypto|..] == b5Results + left;
  }

  method Deduplicated(all: seq<Surface>) returns (queue: seq<Surface>)
    ensures queue == FirstOfEachID(all)
  {
    if all == [] {
      return [];
    }
    var a := new Surface[|all|](i requires 0 <= i < |all| => all[i]);
    assert a[..] == all;
    var n := DedupInPlace(a);
    queue := a[..n];
  }

  lemma ConcatKeepsIDs(strong: seq<Surface>, routed: seq<Surface>, weak: seq<Surface>)
    ensures IDs(routed) <= IDs(strong + routed + weak)
  {
    var all := strong + routed + weak;
    forall id | id in IDs(routed) ensures id in IDs(all) {
      var i :| 0 <= i < |routed| && routed[i].id == id;
      assert all[|strong| + i].id == id;
    }
  }

  /** The surfaces marked as handled are the violations among the emissions. */
  lemma HandledAreSent(queue: seq<Surface>, scan: Surface -> Option<Finding>, filed: map<string, Finding>, handled: set<string>)
    requires KeepsSurfaceID(scan) && FiledUnderID(filed)
    requires var fs := Scanned(queue, scan);
      forall sid :: sid in handled <==>
        sid in filed && exists i | 0 <= i < |fs| :: fs[i].surfaceID == sid && EffectOn(fs[i], filed[sid]) != NoChange
    ensures forall sid :: sid in handled <==> sid in filed && Sends(Emissions(queue, scan, filed), sid)
  {
    var fs, out := Scanned(queue, scan), Emissions(queue, scan, filed);
    forall sid | sid in filed ensures sid in handled <==> Sends(out, sid) {
      if sid in handled {
        var i :| 0 <= i < |fs| && fs[i].surfaceID == sid && EffectOn(fs[i], filed[sid]) != NoChange;
        var q := ScannedComesFromTheQueue(queue, scan, fs[i]);
        EmissionsAreSent(queue, scan, filed, q);
        assert Emission(q, scan, filed).value.surfaceID == sid;
      }
      if Sends(out, sid) {
        var i :| 0 <= i < |out| && out[i].surfaceID == sid;
        var q := EmissionsComeFromTheQueue(queue, scan, filed, out[i]);
        ScannedIsComplete(queue, scan, q);
      }
    }
  }

  lemma {:induction false} ScannedComesFromTheQueue(queue: seq<Surface>, scan: Surface -> Option<Finding>, f: Finding) returns (q: Surface)
    requires f in Scanned(queue, scan)
    ensures q in queue && scan(q) == Some(f)
  {
    q := queue[|queue| - 1];
    if scan(q) != Some(f) {
      q := ScannedComesFromTheQueue(queue[..|queue| - 1], scan, f);
    }
  }

  lemma {:induction false} ScannedIsComplete(queue: seq<Surface>, scan: Surface -> Option<Finding>, q: Surface)
    requires q in queue && scan(q).Some?
    ensures scan(q).value in Scanned(queue, scan)
  {
    var last := |queue| - 1;
    if queue[last] != q {
      assert queue == queue[..last] + [queue[last]];
      ScannedIsComplete(queue[..last], scan, q);
    }
  }

  /** No violation is lost or duplicated: each filed one is sent exactly once, as settled. */
  lemma EveryViolationOnce(rest: seq<Finding>, queue: seq<Surface>, scan: Surface -> Option<Finding>,
                           filed: map<string, Finding>, sid: string) returns (i: nat, q: Surface)
    requires Ledger(rest, queue, scan, filed) && sid in filed
    ensures i < |rest| && q in queue && q.id == sid && rest[i] == Settled(q, scan, filed[sid])
    ensures forall j | 0 <= j < |rest| :: rest[j].surfaceID == sid <==> j == i
  {
    assert Sends(rest, sid);
    i :| 0 <= i < |rest| && rest[i].surfaceID == sid;
    assert Accounted(queue, scan, filed, rest[i]);
    q :| q in queue && Accounts(q, scan, filed, rest[i]);
  }

  /** Of a dismissed violation the severity becomes SUPPRESSED, the reason that of the verdict, and
      everything else stays. */
  predicate IsDismissed(sent: Finding, orig: Finding, v: Verdict) {
    && sent.severity == Suppressed && sent.pinned
    && sent.suppressReason == (if v.taintMismatch then "false_positive" else "safe")
    && sent.confidence == orig.confidence && sent.exploitable == orig.exploitable
    && sent.taintMismatch == orig.taintMismatch && SamePlace(sent, orig)
  }

  /** A confirmed violation takes over the reported confidence, with its tier. */
  predicate IsConfirmed(sent: Finding, orig: Finding, v: Verdict, reported: real) {
    && sent.confidence == reported && sent.severity == SeverityFromConfidence(reported) && sent.pinned
    && sent.exploitable && sent.taintMismatch == v.taintMismatch
    && sent.suppressReason == orig.suppressReason && SamePlace(sent, orig)
  }

  predicate SamePlace(sent: Finding, orig: Finding) {
    && sent.id == orig.id && sent.surfaceID == orig.surfaceID && sent.path == orig.path
    && sent.start == orig.start && sent.end == orig.end && sent.cwe == orig.cwe
    && sent.matchedCode == orig.matchedCode && sent.sourcePath == orig.sourcePath
    && sent.cvss == orig.cvss && sent.ssvc == orig.ssvc
  }

  /** What becomes of a filed violation, in terms of the model's verdict: it is sent once, dismissed
      exactly by a dismissing verdict, confirmed exactly by a confirming one, and otherwise as it
      was filed. */
  lemma WhatBecomesOfAViolation(rest: seq<Finding>, queue: seq<Surface>, scan: Surface -> Option<Finding>,
                                filed: map<string, Finding>, sid: string,
                                judge: Surface -> (Verdict, Evidence, Option<string>)) returns (i: nat, q: Surface)
    requires Ledger(rest, queue, scan, filed) && sid in filed
    requires forall q | q in queue && q.id == sid && scan(q).Some? ::
      Reports(q, judge(q).0, judge(q).1, judge(q).2, scan(q).value)
    ensures i < |rest| && q in queue && q.id == sid
    ensures forall j | 0 <= j < |rest| :: rest[j].surfaceID == sid <==> j == i
    ensures scan(q) == None ==> rest[i] == filed[sid]
    ensures scan(q).Some? ==>
      var (v, e, probe) := judge(q);
      && (Dismisses(v, e, scan(q).value, filed[sid]) ==> IsDismissed(rest[i], filed[sid], v))
      && (Confirms(v, e, probe) ==> IsConfirmed(rest[i], filed[sid], v, scan(q).value.confidence))
      && (!Dismisses(v, e, scan(q).value, filed[sid]) && !Confirms(v, e, probe) ==> rest[i] == filed[sid])
      && (filed[sid].severity == Medium ==>
            (rest[i].severity == Suppressed <==> Dismisses(v, e, scan(q).value, filed[sid])))
  {
    i, q := EveryViolationOnce(rest, queue, scan, filed, sid);
    if scan(q).Some? {
      var (v, e, probe) := judge(q);
      SettledByVerdict(q, v, e, probe, scan(q).value, filed[sid]);
    }
  }

  lemma SettledByVerdict(s: Surface, v: Verdict, e: Evidence, probe: Option<string>, f: Finding, orig: Finding)
    requires Reports(s, v, e, probe, f)
    ensures Dismisses(v, e, f, orig) ==> IsDismissed(Settle(f, orig), orig, v)
    ensures Confirms(v, e, probe) ==> IsConfirmed(Settle(f, orig), orig, v, f.confidence)
    ensures !Dismisses(v, e, f, orig) && !Confirms(v, e, probe) ==> Settle(f, orig) == orig
    ensures orig.severity == Medium ==> (Settle(f, orig).severity == Suppressed <==> Dismisses(v, e, f, orig))
  {
    SuppressedExactlyWhen(s, v, e, probe, f, orig);
    ElevatedExactlyWhen(s, v, e, probe, f, orig);
  }

  // ---- Who is queued, and how ------------------------------------------------------------------

  /** Triage escalated this surface, with a sink that taint reaches or without. */
  predicate Escalated(escalated: seq<Surface>, q: Surface, strong: bool) {
    q in escalated && (q.sinkNodes != [] <==> strong)
  }

  /** q is the surface of a violation, to be investigated under the violated CWE. */
  ghost predicate IsRouted(violations: seq<Contracts.Result>, q: Surface) {
    exists r :: r in violations && q == r.surface.(contractCWE := r.cwe)
  }

  lemma {:induction false} BucketMembers(escalated: seq<Surface>, b: Bucket)
    ensures forall q :: q in InBucket(escalated, b) <==> q in escalated && TaintGateClassify(q) == b
  {
    if escalated != [] {
      var last := |escalated| - 1;
      BucketMembers(escalated[..last], b);
      assert escalated == escalated[..last] + [escalated[last]];
    }
  }

  lemma {:induction false} RoutedMembers(violations: seq<Contracts.Result>)
    ensures forall q :: q in Routed(violations) <==> IsRouted(violations, q)
  {
    if violations != [] {
      var init, last := violations[..|violations| - 1], violations[|violations| - 1];
      RoutedMembers(init);
      assert violations == init + [last];
      forall q ensures q in Routed(violations) <==> IsRouted(violations, q) {
        assert IsRouted(violations, q) <==> IsRouted(init, q) || q == last.surface.(contractCWE := last.cwe);
      }
    }
  }

  /** The surfaces queued under an ID are those that triage escalated with a sink; or else those of
      violations; or else those that triage escalated with a contract's CWE only. */
  lemma QueuedExactly(violations: seq<Contracts.Result>, escalated: seq<Surface>, id: string)
    ensures var queue := FirstOfEachID(Candidates(violations, escalated));
      && (id in IDs(queue) <==>
            || (exists q :: Escalated(escalated, q, true) && q.id == id)
            || (exists q :: IsRouted(violations, q) && q.id == id)
            || (exists q :: Escalated(escalated, q, false) && q.contractCWE != "" && q.id == id))
      && (forall q | q in queue && q.id == id ::
            if exists p :: Escalated(escalated, p, true) && p.id == id then Escalated(escalated, q, true)
            else if exists p :: IsRouted(violations, p) && p.id == id then IsRouted(violations, q)
            else Escalated(escalated, q, false) && q.contractCWE != "")
  {
    var all := Candidates(violations, escalated);
    FirstOfEachIDIsFaithful(all);
    BucketMembers(escalated, Confirmed);
    BucketMembers(escalated, Weak);
    RoutedMembers(violations);
    CandidateIDs(violations, escalated, id);
    forall q | q in FirstOfEachID(all) && q.id == id
      ensures if exists p :: Escalated(escalated, p, true) && p.id == id then Escalated(escalated, q, true)
              else if exists p :: IsRouted(violations, p) && p.id == id then IsRouted(violations, q)
              else Escalated(escalated, q, false) && q.contractCWE != ""
    {
      QueuedInTheFirstPart(violations, escalated, q);
    }
  }

  lemma Regroup<T>(a: seq<T>, b: seq<T>, c: seq<T>)
    ensures a + (b + c) == (a + b) + c
  {
  }

  lemma Init<T>(a: seq<T>, b: seq<T>)
    requires b != []
    ensures (a + b)[..|a + b| - 1] == a + b[..|b| - 1] && (a + b)[|a + b| - 1] == b[|b| - 1]
  {
  }

  /** Splitting by verdict and by taint evidence, routing, and processing keep the order: they
      work on a list's parts one after the other. */
  lemma {:induction false} WithVerdictAdds(a: seq<Contracts.Result>, b: seq<Contracts.Result>, v: Contracts.Judgement)
    ensures WithVerdict(a + b, v) == WithVerdict(a, v) + WithVerdict(b, v)
  {
    if b == [] {
      assert a + b == a;
    } else {
      var init, last := b[..|b| - 1], b[|b| - 1];
      WithVerdictAdds(a, init, v);
      Init(a, b);
      Regroup(WithVerdict(a, v), WithVerdict(init, v), if last.verdict == v then [last] else []);
    }
  }

  lemma {:induction false} InBucketAdds(a: seq<Surface>, b: seq<Surface>, bucket: Bucket)
    ensures InBucket(a + b, bucket) == InBucket(a, bucket) + InBucket(b, bucket)
  {
    if b == [] {
      assert a + b == a;
    } else {
      var init, last := b[..|b| - 1], b[|b| - 1];
      InBucketAdds(a, init, bucket);
      Init(a, b);
      Regroup(InBucket(a, bucket), InBucket(init, bucket), if TaintGateClassify(last) == bucket then [last] else []);
    }
  }

  lemma OneResult(r: Contracts.Result, q: Surface, v: Contracts.Judgement)
    ensures WithVerdict([r], v) == if r.verdict == v then [r] else []
    ensures InBucket([q], Confirmed) == if q.sinkNodes != [] then [q] else []
    ensures InBucket([q], Weak) == if q.sinkNodes == [] && q.contractCWE != "" then [q] else []
  {
    assert [r][..0] == [] && [q][..0] == [];
  }

  lemma {:induction false} RoutedInOrder(violations: seq<Contracts.Result>, i: nat)
    requires i < |violations|
    ensures |Routed(violations)| == |violations|
    ensures Routed(violations)[i] == violations[i].surface.(contractCWE := violations[i].cwe)
  {
    var last := |violations| - 1;
    if last > 0 {
      RoutedInOrder(violations[..last], if i < last then i else 0);
    }
  }

  lemma {:induction false} ProcessedAdds(a: seq<Finding>, b: seq<Finding>, violations: map<string, Finding>)
    ensures Processed(a + b, violations) == Processed(a, violations) + Processed(b, violations)
  {
    if b == [] {
      assert a + b == a;
    } else {
      var f := b[|b| - 1];
      ProcessedAdds(a, b[..|b| - 1], violations);
      Init(a, b);
      Regroup(Processed(a, violations), Processed(b[..|b| - 1], violations),
              if f.surfaceID !in violations then [f]
              else if EffectOn(f, violations[f.surfaceID]) == NoChange then []
              else [Settle(f, violations[f.surfaceID])]);
    }
  }

  /** One finding is passed on if its surface has no violation; otherwise the violation is, if the
      verdict dismisses or confirms it, and else nothing. */
  lemma ProcessedOne(s: Surface, v: Verdict, e: Evidence, probe: Option<string>, f: Finding, violations: map<string, Finding>)
    requires Reports(s, v, e, probe, f)
    ensures s.id !in violations ==> Processed([f], violations) == [f]
    ensures s.id in violations ==>
      var orig, out := violations[s.id], Processed([f], violations);
      if Dismisses(v, e, f, orig) then |out| == 1 && IsDismissed(out[0], orig, v)
      else if Confirms(v, e, probe) then |out| == 1 && IsConfirmed(out[0], orig, v, f.confidence)
      else out == []
  {
    assert [f][..0] == [];
    if s.id in violations {
      SuppressedExactlyWhen(s, v, e, probe, f, violations[s.id]);
      ElevatedExactlyWhen(s, v, e, probe, f, violations[s.id]);
      SettledByVerdict(s, v, e, probe, f, violations[s.id]);
    }
  }

  lemma CandidateIDs(violations: seq<Contracts.Result>, escalated: seq<Surface>, id: string)
    ensures id in IDs(Candidates(violations, escalated)) <==>
      exists q: Surface :: q.id == id && (q in InBucket(escalated, Confirmed) || q in Routed(violations) || q in InBucket(escalated, Weak))
  {
    var all := Candidates(violations, escalated);
    if id in IDs(all) {
      var i :| 0 <= i < |all| && all[i].id == id;
      assert all[i] in all;
    }
    if q: Surface :| q.id == id && (q in InBucket(escalated, Confirmed) || q in Routed(violations) || q in InBucket(escalated, Weak)) {
      assert q in all;
      var i :| 0 <= i < |all| && all[i] == q;
    }
  }

  /** What is kept of an ID comes from the first of the three parts that has the ID. */
  lemma QueuedInTheFirstPart(violations: seq<Contracts.Result>, escalated: seq<Surface>, q: Surface)
    requires q in FirstOfEachID(Candidates(violations, escalated))
    ensures var strong, routed, weak := InBucket(escalated, Confirmed), Routed(violations), InBucket(escalated, Weak);
      && q in strong + routed + weak
      && ((exists p :: p in strong && p.id == q.id) ==> q in strong)
      && ((exists p :: p in routed && p.id == q.id) ==> q in strong || q in routed)
  {
    var strong, routed, weak := InBucket(escalated, Confirmed), Routed(violations), InBucket(escalated, Weak);
    var all := Candidates(violations, escalated);
    var i := KeptIsFirst(all, q);
    if p :| p in strong && p.id == q.id {
      var k :| 0 <= k < |strong| && strong[k] == p;
      assert all[k] == p;
      assert i <= k;
    }
    if p :| p in routed && p.id == q.id {
      var k :| 0 <= k < |routed| && routed[k] == p;
      assert all[|strong| + k] == p;
      assert i <= |strong| + k;
    }
  }

  /** A violating surface that triage did not also escalate reaches B5 under the violated CWE,
      so the rulebook gates its investigation. */
  lemma ViolationsAreGated(violations: seq<Contracts.Result>, escalated: seq<Surface>, q: Surface, rulebook: set<string>)
    requires forall i | 0 <= i < |violations| :: violations[i].cwe in rulebook
    requires q in FirstOfEachID(Candidates(violations, escalated)) && q.id !in IDs(escalated)
    ensures q.contractCWE in rulebook
  {
    FirstOfEachIDIsFaithful(Candidates(violations, escalated));
    if q in InBucket(escalated, Confirmed) {
      BucketsAreEscalated(escalated, Confirmed, q);
    } else if q in InBucket(escalated, Weak) {
      BucketsAreEscalated(escalated, Weak, q);
    } else {
      RoutedUnderViolation(violations, q, rulebook);
    }
  }

  /** What is kept of an ID is its first surface in the queue. */
  lemma {:induction false} KeptIsFirst(queue: seq<Surface>, q: Surface) returns (i: nat)
    requires q in FirstOfEachID(queue)
    ensures i < |queue| && queue[i] == q && forall j | 0 <= j < i :: queue[j].id != q.id
  {
    var n := |queue| - 1;
    if q in FirstOfEachID(queue[..n]) {
      i := KeptIsFirst(queue[..n], q);
    } else {
      i := n;
      FirstOfEachIDIsFaithful(queue[..n]);
      forall j | 0 <= j < n ensures queue[j].id != q.id {
        assert queue[..n][j].id in IDs(queue[..n]);
      }
    }
  }

  /** Any violating surface reaches B5 under a rulebook CWE, unless triage escalated it too with
      strong taint evidence; then it goes as triage left it. */
  lemma ViolatingSurfacesAreGated(violations: seq<Contracts.Result>, escalated: seq<Surface>, q: Surface, rulebook: set<string>)
    requires forall i | 0 <= i < |violations| :: violations[i].cwe in rulebook
    requires q in FirstOfEachID(Candidates(violations, escalated)) && q.id in IDs(Routed(violations))
    ensures q.contractCWE in rulebook || q in InBucket(escalated, Confirmed)
  {
    var strong, routed := InBucket(escalated, Confirmed), Routed(violations);
    var all := Candidates(violations, escalated);
    var i := KeptIsFirst(all, q);
    var k :| 0 <= k < |routed| && routed[k].id == q.id;
    assert all[|strong| + k] == routed[k];
    if |strong| <= i {
      assert q == routed[i - |strong|];
      RoutedUnderViolation(violations, q, rulebook);
    }
  }

  ghost predicate OneResultEach(results: seq<Contracts.Result>) {
    forall i, j | 0 <= i < j < |results| :: results[i].surface.id != results[j].surface.id
  }

  /** Triage only hands on surfaces of the results it was given. */
  ghost predicate FromResults(escalated: seq<Surface>, results: seq<Contracts.Result>) {
    forall i | 0 <= i < |escalated| :: exists r :: r in results && r.surface.id == escalated[i].id
  }

  lemma {:induction false} WithVerdictComesFrom(results: seq<Contracts.Result>, v: Contracts.Judgement)
    ensures forall r | r in WithVerdict(results, v) :: r in results && r.verdict == v
  {
    if results != [] {
      WithVerdictComesFrom(results[..|results| - 1], v);
    }
  }

  lemma {:induction false} RoutedComesFrom(violations: seq<Contracts.Result>, id: string) returns (r: Contracts.Result)
    requires id in IDs(Routed(violations))
    ensures r in violations && r.surface.id == id
  {
    var last := |violations| - 1;
    r := violations[last];
    if r.surface.id != id {
      IDsOfSnoc(Routed(violations[..last]), r.surface.(contractCWE := r.cwe));
      r := RoutedComesFrom(violations[..last], id);
    }
  }

  /** With one result for each surface, triage cannot have escalated a violating one, so every
      violation is investigated under its rulebook CWE. */
  lemma EveryViolationIsGated(results: seq<Contracts.Result>, escalated: seq<Surface>, q: Surface, rulebook: set<string>)
    requires OneResultEach(results) && FromResults(escalated, WithVerdict(results, Contracts.Inconclusive))
    requires forall r | r in results && r.verdict == Contracts.Violation :: r.cwe in rulebook
    requires var violations := WithVerdict(results, Contracts.Violation);
      q in FirstOfEachID(Candidates(violations, escalated)) && q.id in IDs(Routed(violations))
    ensures q.contractCWE in rulebook
  {
    var violations := WithVerdict(results, Contracts.Violation);
    WithVerdictComesFrom(results, Contracts.Violation);
    WithVerdictComesFrom(results, Contracts.Inconclusive);
    var r := RoutedComesFrom(violations, q.id);
    ViolatingIsNotEscalated(results, escalated, r);
    ViolationsAreGated(violations, escalated, q, rulebook);
  }

  lemma ViolatingIsNotEscalated(results: seq<Contracts.Result>, escalated: seq<Surface>, r: Contracts.Result)
    requires OneResultEach(results) && FromResults(escalated, WithVerdict(results, Contracts.Inconclusive))
    requires r in results && r.verdict == Contracts.Violation
    ensures r.surface.id !in IDs(escalated)
  {
    WithVerdictComesFrom(results, Contracts.Inconclusive);
    forall i | 0 <= i < |escalated| ensures escalated[i].id != r.surface.id {
      var other :| other in WithVerdict(results, Contracts.Inconclusive) && other.surface.id == escalated[i].id;
      assert other in results && other.verdict != r.verdict;
    }
  }

  lemma {:induction false} BucketsAreEscalated(escalated: seq<Surface>, b: Bucket, q: Surface)
    requires q in InBucket(escalated, b)
    ensures q.id in IDs(escalated)
  {
    var last := |escalated| - 1;
    if q != escalated[last] || TaintGateClassify(q) != b {
      BucketsAreEscalated(escalated[..last], b, q);
      var i :| 0 <= i < last && escalated[..last][i].id == q.id;
      assert escalated[i].id == q.id;
    }
  }

  lemma {:induction false} RoutedUnderViolation(violations: seq<Contracts.Result>, q: Surface, rulebook: set<string>)
    requires forall i | 0 <= i < |violations| :: violations[i].cwe in rulebook
    requires q in Routed(violations)
    ensures q.contractCWE in rulebook
  {
    var last := |violations| - 1;
    if q != violations[last].surface.(contractCWE := violations[last].cwe) {
      RoutedUnderViolation(violations[..last], q, rulebook);
    }
  }

  /** If every answer about a violating surface was given without a tool call, the violation is
      sent exactly as the contract check filed it. */
  lemma UninvestigatedViolationSurvives(rest: seq<Finding>, queue: seq<Surface>, scan: Surface -> Option<Finding>,
                                        filed: map<string, Finding>, sid: string,
                                        judge: Surface -> (Verdict, Evidence, Option<string>)) returns (i: nat)
    requires Ledger(rest, queue, scan, filed) && sid in filed
    requires forall q | q in queue && q.id == sid && scan(q).Some? ::
      Reports(q, judge(q).0, judge(q).1, judge(q).2, scan(q).value) && judge(q).1.gated && !judge(q).1.investigated
    ensures i < |rest| && rest[i] == filed[sid]
  {
    var q;
    i, q := EveryViolationOnce(rest, queue, scan, filed, sid);
    if scan(q).Some? {
      UninvestigatedChangesNothing(q, judge(q).0, judge(q).1, judge(q).2, scan(q).value, filed[sid]);
    }
  }
}
