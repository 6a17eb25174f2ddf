/** From the model's final text to a finding: the four guards on the verdict, the second
    opinion, and the conversion (internal/semantic/analysis/analysis.go, verdict.go). */
module Verdicts {
  import opened Findings
  import opened Surfaces
  import opened Investigation
  import Text

  const SECOND_OPINION_THRESHOLD := 0.85
  const SNIPPET_LINES := 30

  const HEDGE_WORDS := [
    "typically", "likely", "probably", "presumably", "may be", "usually",
    "uncertain", "leans toward", "leaning toward", "not entirely sure",
    "can't be certain", "cannot be certain", "might be", "could be"]

  predicate Hedges(explanation: string) {
    exists i | 0 <= i < |HEDGE_WORDS| :: Text.Contains(Text.Lower(explanation), HEDGE_WORDS[i])
  }

  predicate SaysNo(raw: string) {
    Text.Contains(Text.Upper(raw), "NO") && !Text.Contains(Text.Upper(raw), "YES")
  }

  /** Everything the language model contributes to one surface: the Chat replies of the tool
      loop, the single-shot text used without a graph, the retry text and the second opinion.
      None stands for a failed call. The JSON parser is an arbitrary function too. */
  datatype Oracle = Oracle(
    chat: nat -> Reply,
    parse: string -> Verdict,
    generate: Option<string>,
    retry: Option<string>,
    probe: Option<string>)

  /** What the run knows about how the answer was reached. */
  datatype Evidence = Evidence(gated: bool, investigated: bool, distinct: nat)

  /** A text that is not empty stands, and only an empty one is asked for again, once. */
  function WithRetry(text: Option<string>, retry: Option<string>): (raw: Option<string>)
    ensures raw != Some("") && (text.None? ==> raw.None?)
    ensures text.Some? && text.value != "" ==> raw == text
    ensures text == Some("") ==> raw == retry || (raw.None? && retry == Some(""))
  {
    if text != Some("") then text else if retry == Some("") then None else retry
  }

  // ---- The guards in closed form ---------------------------------------------------------

  predicate SingleAngle(v: Verdict, e: Evidence) {
    e.gated && e.investigated && e.distinct < 2 && v.exploitable && v.confidence >= DUAL_TOOL_THRESHOLD
  }

  predicate Capped(v: Verdict, e: Evidence) {
    (e.gated && !e.investigated) || SingleAngle(v, e) || (v.exploitable && Hedges(v.explanation))
  }

  function GuardedConfidence(v: Verdict, e: Evidence): real {
    if Capped(v, e) then Min(v.confidence, UNINVESTIGATED_CAP) else v.confidence
  }

  predicate Doubted(v: Verdict, e: Evidence, probe: Option<string>) {
    && v.exploitable && GuardedConfidence(v, e) >= SECOND_OPINION_THRESHOLD
    && probe.Some? && SaysNo(probe.value)
  }

  function FinalConfidence(v: Verdict, e: Evidence, probe: Option<string>): real {
    if Doubted(v, e, probe) then Max(GuardedConfidence(v, e) - 0.3, 0.0) else GuardedConfidence(v, e)
  }

  predicate StaysExploitable(v: Verdict, e: Evidence, probe: Option<string>) {
    v.exploitable && (Doubted(v, e, probe) ==> FinalConfidence(v, e, probe) >= 0.6)
  }

  /** f is the finding that surface gets for raw verdict v reached with evidence e. */
  predicate Reports(surface: Surface, v: Verdict, e: Evidence, probe: Option<string>, f: Finding) {
    && f.surfaceID == surface.id
    && f.exploitable == StaysExploitable(v, e, probe)
    && f.confidence == (if FinalConfidence(v, e, probe) <= 0.0 then 0.5 else FinalConfidence(v, e, probe))
    && f.taintMismatch == v.taintMismatch
    && (surface.contractCWE != "" ==> f.cwe == surface.contractCWE)
    && (surface.contractCWE == "" && ApplicableCWE(surface.kind) != "" ==> f.cwe == ApplicableCWE(surface.kind))
    && (surface.contractCWE == "" && ApplicableCWE(surface.kind) == "" ==> f.cwe == v.cwe)
    && f.cvss == surface.cvss && f.ssvc == SSVC("", "") && f.suppressReason == ""
    && (!f.exploitable ==> f.pinned && f.severity == Low)
    && (f.exploitable ==> !f.pinned && f.severity == SeverityFromLabel(v.severity))
    && f.start == f.end == (if surface.sinkLine > 0 then surface.sinkLine else surface.line)
    && f.sourcePath == Semantic
    && f.path == surface.file
    && f.id == FindingID(f.cwe, f.path, f.start)
  }

  // ---- The code --------------------------------------------------------------------------

  function ApplicableCWE(kind: Kind): string {
    match kind
    case ExternalInput => "CWE-89"
    case IDORCandidate => "CWE-862"
    case AuthBoundary => "CWE-862"
    case DangerousSink => "CWE-327"
    case OtherKind => ""
  }

  function SeverityFromLabel(text: string): Severity {
    var upper := Text.Upper(text);
    if upper == "CRITICAL" then Block
    else if upper == "HIGH" then High
    else if upper == "MEDIUM" then Medium
    else if upper == "LOW" then Low
    else Medium
  }

  function FirstLines(code: string, n: nat): string {
    var lines := Text.Split(code);
    if |lines| > n then Text.Join(lines[..n]) else code
  }

  /** At most the first n lines, without what follows. */
  lemma SnippetIsTheHead(code: string, n: nat)
    requires n > 0
    ensures var lines := Text.Split(code);
      Text.Split(FirstLines(code, n)) == if |lines| > n then lines[..n] else lines
  {
    var lines := Text.Split(code);
    Text.SplitGivesSingleLines(code);
    if |lines| > n {
      Text.SplitJoin(lines[..n]);
    }
  }

  function VerdictToFinding(surface: Surface, v: Verdict): Finding {
    var cwe := if surface.contractCWE != "" then surface.contractCWE
               else if ApplicableCWE(surface.kind) != "" then ApplicableCWE(surface.kind)
               else v.cwe;
    var line := if surface.sinkLine > 0 then surface.sinkLine else surface.line;
    Finding(
      id := FindingID(cwe, surface.file, line),
      surfaceID := surface.id,
      path := surface.file,
      start := line,
      end := line,
      cwe := cwe,
      severity := if v.exploitable then SeverityFromLabel(v.severity) else Low,
      confidence := if v.confidence <= 0.0 then 0.5 else v.confidence,
      sourcePath := Semantic,
      suppressReason := "",
      matchedCode := FirstLines(surface.code, SNIPPET_LINES),
      cvss := surface.cvss,
      ssvc := SSVC("", ""),
      taintMismatch := v.taintMismatch,
      exploitable := v.exploitable,
      pinned := !v.exploitable)
  }

  method SelfConsistencyCheck(v: Verdict, probe: Option<string>) returns (out: Verdict)
    ensures probe == None || !SaysNo(probe.value) ==> out == v
    ensures probe.Some? && SaysNo(probe.value) ==>
      && out.confidence == Max(v.confidence - 0.3, 0.0)
      && out.exploitable == (v.exploitable && out.confidence >= 0.6)
      && out == v.(confidence := out.confidence, exploitable := out.exploitable)
  {
    out := v;
    if probe.Some? && SaysNo(probe.value) {
      out := out.(confidence := out.confidence - 0.3);
      if out.confidence < 0.0 {
        out := out.(confidence := 0.0);
      }
      if out.confidence < 0.6 {
        out := out.(exploitable := false);
      }
    }
  }

  /** The two guards on how the verdict was reached. */
  method InvestigationGuards(v: Verdict, e: Evidence) returns (out: Verdict)
    ensures out == v.(confidence := out.confidence, explanation := out.explanation)
    ensures if (e.gated && !e.investigated) || SingleAngle(v, e)
            then out.confidence == Min(v.confidence, UNINVESTIGATED_CAP)
            else out == v
  {
    out := v;
    if e.gated && !e.investigated {
      out := out.(confidence := Min(out.confidence, UNINVESTIGATED_CAP),
                  explanation := "[uninvestigated: no caller chain checked] " + out.explanation);
    }
    if e.gated && e.investigated && e.distinct < 2 && out.exploitable &&
       out.confidence >= DUAL_TOOL_THRESHOLD {
      out := out.(confidence := Min(out.confidence, UNINVESTIGATED_CAP),
                  explanation := "[single investigative angle: only one tool type used] " + out.explanation);
    }
  }

  /** The guards as the code applies them, one after the other on the verdict's fields. */
  method ApplyGuards(v: Verdict, e: Evidence, probe: Option<string>) returns (out: Verdict)
    ensures out.exploitable == StaysExploitable(v, e, probe)
    ensures out.confidence == FinalConfidence(v, e, probe)
    ensures out.cwe == v.cwe && out.severity == v.severity && out.taintMismatch == v.taintMismatch
  {
    out := InvestigationGuards(v, e);
    var hedged := out.exploitable && Hedges(out.explanation);
    if hedged {
      out := out.(confidence := Min(out.confidence, UNINVESTIGATED_CAP),
                  explanation := "[hedged claim of an unverified guard] " + out.explanation);
    }
    assert out.confidence == GuardedConfidence(v, e);
    if out.exploitable && out.confidence >= SECOND_OPINION_THRESHOLD {
      out := SelfConsistencyCheck(out, probe);
    }
  }

  /** The analysis of one surface. No finding results exactly when the model gave no text. */
  method ScanOne(surface: Surface, hasGraph: bool, rulebook: set<string>, o: Oracle)
    returns (f: Option<Finding>, raw: Option<string>, e: Evidence, calls: nat)
    ensures e.gated == (hasGraph && surface.contractCWE in rulebook)
    ensures hasGraph ==>
      var s := Session(o.chat, o.parse, e.gated);
      && calls > 0 && s.EndsAt(calls - 1)
      && e.investigated == s.Investigated(calls - 1)
      && e.distinct == |s.ToolNames(calls - 1)|
      && raw == WithRetry(s.AnswerAt(calls - 1), o.retry)
    ensures !hasGraph ==> calls == 0 && raw == WithRetry(o.generate, o.retry)
    ensures f.Some? <==> raw.Some?
    ensures f.Some? ==> Reports(surface, o.parse(raw.value), e, o.probe, f.value)
    ensures f.Some? ==>
      var lines := Text.Split(surface.code);
      Text.Split(f.value.matchedCode) == if |lines| > 30 then lines[..30] else lines
  {
    var gated := hasGraph && surface.contractCWE in rulebook;
    var text, investigated, distinct := o.generate, false, 0;
    calls := 0;
    if hasGraph {
      var nudges;
      text, investigated, distinct, calls, nudges := RunToolLoop(Session(o.chat, o.parse, gated));
    }
    e := Evidence(gated, investigated, distinct);
    raw := text;
    if text == None {
      return None, raw, e, calls;
    }
    if text.value == "" {
      raw := o.retry;
      if raw == None || raw.value == "" {
        return None, None, e, calls;
      }
    }
    var verdict := ApplyGuards(o.parse(raw.value), e, o.probe);
    f := Some(VerdictToFinding(surface, verdict));
    SnippetIsTheHead(surface.code, SNIPPET_LINES);
  }

  // ---- What is reported, in terms of the verdict ------------------------------------------------

  /** One of the hedging words occurs in the explanation, in any case of letters. */
  ghost predicate IsHedged(explanation: string) {
    exists word | word in HEDGE_WORDS :: Text.Contains(Text.Lower(explanation), word)
  }

  /** The answer has a NO in it and no YES, in any case of letters. */
  predicate AnswersNo(probe: Option<string>) {
    probe.Some? && Text.Contains(Text.Upper(probe.value), "NO") && !Text.Contains(Text.Upper(probe.value), "YES")
  }

  /** On a rulebook CWE, no tool was called; or an exploitable verdict at 0.85 or more rests on
      fewer than two tools; or an exploitable verdict is hedged. */
  ghost predicate IsCapped(v: Verdict, e: Evidence) {
    || (e.gated && !e.investigated)
    || (e.gated && v.exploitable && v.confidence >= 0.85 && e.distinct < 2)
    || (v.exploitable && IsHedged(v.explanation))
  }

  /** A capped verdict is reported with at most 0.5; an uncapped exploitable one at 0.85 or more that
      is answered NO with 0.3 less, and from 0.6 on as exploitable; any other as it is. */
  lemma ReportedExactly(surface: Surface, v: Verdict, e: Evidence, probe: Option<string>, f: Finding)
    requires Reports(surface, v, e, probe, f)
    ensures IsCapped(v, e) ==>
      f.exploitable == v.exploitable && f.confidence == if v.confidence <= 0.0 || v.confidence > 0.5 then 0.5 else v.confidence
    ensures !IsCapped(v, e) && v.exploitable && v.confidence >= 0.85 && AnswersNo(probe) ==>
      f.exploitable == (v.confidence >= 0.9) && f.confidence == v.confidence - 0.3
    ensures !IsCapped(v, e) && !(v.exploitable && v.confidence >= 0.85 && AnswersNo(probe)) ==>
      f.exploitable == v.exploitable && f.confidence == if v.confidence <= 0.0 then 0.5 else v.confidence
  {
    HedgedIs(v.explanation);
  }

  lemma HedgedIs(explanation: string)
    ensures IsHedged(explanation) <==> Hedges(explanation)
  {
    if word :| word in HEDGE_WORDS && Text.Contains(Text.Lower(explanation), word) {
      var i :| 0 <= i < |HEDGE_WORDS| && HEDGE_WORDS[i] == word;
    }
    if i :| 0 <= i < |HEDGE_WORDS| && Text.Contains(Text.Lower(explanation), HEDGE_WORDS[i]) {
      assert HEDGE_WORDS[i] in HEDGE_WORDS;
    }
  }

  /** Where a finding is filed: under the contract's CWE, or the one of the surface's kind, or the
      model's; at the sink's line, or the surface's. One that is not exploitable is pinned to LOW;
      any other has the severity the model named, in any case of letters, or MEDIUM. */
  lemma ReportedAs(surface: Surface, v: Verdict, e: Evidence, probe: Option<string>, f: Finding)
    requires Reports(surface, v, e, probe, f)
    ensures f.cwe ==
      if surface.contractCWE != "" then surface.contractCWE
      else match surface.kind
           case ExternalInput => "CWE-89"
           case IDORCandidate => "CWE-862"
           case AuthBoundary => "CWE-862"
           case DangerousSink => "CWE-327"
           case OtherKind => v.cwe
    ensures f.start == f.end == if surface.sinkLine > 0 then surface.sinkLine else surface.line
    ensures f.path == surface.file && f.surfaceID == surface.id && f.taintMismatch == v.taintMismatch
    ensures f.pinned <==> !f.exploitable
    ensures !f.exploitable ==> f.severity == Low
    ensures f.exploitable ==>
      && (f.severity == Block <==> Text.Upper(v.severity) == "CRITICAL")
      && (f.severity == High <==> Text.Upper(v.severity) == "HIGH")
      && (f.severity == Low <==> Text.Upper(v.severity) == "LOW")
      && f.severity != Suppressed
  {
  }
}
