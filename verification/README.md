# ZeroTrust.sh: a verified model of its analysis core

ZeroTrust.sh scans a code base for vulnerabilities. It keeps an index of changed files, builds a
call graph with Joern, checks attack surfaces against contracts, lets a language model investigate
what the contracts cannot decide, and merges and scores the findings of all paths. This project
models the hand-written algorithms behind that and proves what they guarantee on every input, over
every run and under every schedule.

| files | part of the system |
|---|---|
| `Findings`, `Surfaces`, `Text`, `Octets` | the records all stages exchange, strings and bytes |
| `Investigation`, `Verdicts`, `Reasoning` | the tool-calling loop against an arbitrary model, the guards on its verdict, and what the verdict does to a contract violation |
| `Contracts`, `SinkContext`, `ReportLines` | the deterministic contract check; the code window around a sink, its listing in the report and the file's own line numbers |
| `Walks`, `Neighbours`, `Attribution`, `Route` | the three bounded graph searches, and the recursive SQL query beside the first |
| `Detection`, `Dedup`, `KeyText`, `Scoring` | the detection channel, gate 1 of the deduplication and the text of its key, the final score |
| `CryptoBarrier`, `JoernLifecycle` | the worker pool of the crypto checker; starting and stopping the Joern process |
| `DiffIndex` | the differential index and its table |
| `Gguf`, `Repl`, `FunctionBody`, `BodyLines`, `MethodText`, `TextWindows`, `PromptCode` | parsers and text windows |

The language model is an arbitrary function from the number of a call to a reply, and its parser an
arbitrary function from text to a verdict. Confidences are reals. Concurrent parts are state
machines whose runs are arbitrary sequences of atomic steps. Loops that change variables are methods
proved against predicates or functions; the results are then proved about those, and what they mean is
stated once more in terms of the inputs, with the limits in numbers.

Where the code does not do what its documentation says, the code is modelled as it is, and a lemma
shows by how much it differs:

- Elevation is documented as raising a violation from MEDIUM to HIGH. From 0.70 up to 0.75 the
  elevated violation stays MEDIUM (`Reasoning.ElevatedSeverity`, `Reasoning.ElevatedToMedium`).
- A second opinion of NO still lets a violation be elevated when the model claimed a confidence of
  1.0 (`Reasoning.ElevatedExactlyWhen`, `Reasoning.DoubtedVerdictCanElevate`).
- The walk-up loop of `Enrich` is written for six levels; its early stop leaves three
  (`Attribution.WalkUp`, `Attribution.FourCallersUpIsTooFar`).
- The recursive query never returns less than the search, but it can return more: along calls of
  another project, through ends that are no nodes, and through synthetic nodes
  (`Neighbours.ForeignCallsLeak`, `Neighbours.DanglingEndsLeak`, `Neighbours.SyntheticNodesLeak`).
  The search fails where it meets a node with an empty ID (`Neighbours.EmptyIdsFail`). The two agree
  exactly if every such detour is matched by as short a walk of the search and no such node is called
  from, or calls, a node that the search steps on from (`Neighbours.AgreesExactlyWhen`).
- An Inconclusive contract verdict reports the CWE tried first (`Contracts.InconclusiveKeepsTheFirst`,
  `Contracts.InconclusiveIsIndependentExactlyWhen`).
- The lists of applicable CWEs are documented as ascending and are not (`Contracts.ApplicableDescend`);
  that changes nothing but the CWE of an Inconclusive verdict (`Contracts.CheckOrderDoesNotMatter`).
- The severity of a merged finding pinned by several members can depend on the arrival order
  (`Dedup.PinnedLabelDependsOnOrder`, `Dedup.LabelIsIndependentExactlyWhen`), and a higher confidence
  can score lower (`Scoring.ConfidenceIsNotMonotone`, `Scoring.ConfidenceMonotoneExactlyWhen`),
  although for the default thresholds never in a lower tier.
- A scan that ends in an error has already recorded the files it saw, so their changes are missing
  from the next change set (`DiffIndex.BrokenScanLosesExactly`, `DiffIndex.RetryTracksExactlyWhen`,
  `DiffIndex.RetryLosesTheFile`). A removed file whose row a failed Commit left behind is missed when
  it comes back unchanged (`DiffIndex.BrokenCommitLosesExactly`).
- With concurrent callers of `Start` and `Stop` a live Joern process can be reported as crashed
  (`JoernLifecycle.ConcurrentStartCanBeReportedCrashed`), exactly if some watcher was still waiting
  when the Start began (`JoernLifecycle.StartRisksFalseAlarmExactlyWhen`).
- The last fallback of `readFunctionBody` is documented as returning the start of the signature; it
  only ever returns blanks (`FunctionBody.BodyIsTheTrimmedRun`). A string literal with `//` in it, and
  a character literal that holds a double quote, hide the braces after them
  (`FunctionBody.SlashesInALiteralHideTheRest`, `FunctionBody.QuoteInACharacterHidesTheRest`,
  `FunctionBody.StripKeepsCodeExactlyWhen`).
- The report counts lines from the surface's line on, but the body that it lists begins at the
  signature (`ReportLines.ReportFollowsFileExactlyWhen`, `ReportLines.ReportIsRightExactlyWhen`). Under
  an annotation every number is one too high and the highlighted line is not the sink's
  (`ReportLines.AnnotationAboveShifts`, `ReportLines.CallIsMisnumbered`); after an off-by-one closing
  brace it is too low (`ReportLines.ClosingBraceAboveShifts`).
- A long body is cut around the sink's line to keep it in the prompt, but its place is computed before
  blank and comment lines are dropped, and from the surface's line
  (`PromptCode.TargetIsSinkExactlyWhen`, `PromptCode.UnshiftedTargetExactlyWhen`).
- Wrapped console output whose prefix is blank keeps its wrapping (`Repl.PlainUnwrapsExactlyWhen`).
- A directory whose name ends like a binary file is left out with everything in it
  (`DiffIndex.VisitedExactly`).

## Model

| member | source | states |
|---|---|---|
| Investigation.RunToolLoop | internal/semantic/analysis/analysis.go:501-686 | whatever the model replies, at most nine Chat calls are made, the answer is the reply of the round where the run ends, and the flags and counters returned are those of the reply history |
| Investigation.Review | internal/semantic/analysis/analysis.go:501-686 | a reply without tool calls is accepted exactly if no gate of the history turns it down, and otherwise gets the nudge that the history calls for |
| Investigation.PlayRound | internal/semantic/analysis/analysis.go:501-686 | one round keeps the loop's variables equal to what the history says, and ends the loop exactly on a failed call or an accepted answer |
| Investigation.OneTimeNudges | internal/semantic/analysis/analysis.go:501-686 | each of the two corrective prompts for investigated answers is sent at most once in a run |
| Investigation.TwoRefusalsAfterInvestigation | internal/semantic/analysis/analysis.go:501-686 | after the first tool call at most two more answers are turned down |
| Investigation.RefusalsAreOneTime | internal/semantic/analysis/analysis.go:501-686 | the refusals after the first tool call are exactly the two one-time prompts that were not sent before |
| Investigation.UninvestigatedAnswer | internal/semantic/analysis/analysis.go:501-686 | on a rulebook CWE an answer without any tool call comes only from the forced ninth call, after eight answers without one |
| Investigation.EachReplyGetsItsPrompt | internal/semantic/analysis/analysis.go:516-671 | a reply is followed by a prompt exactly if it answers on a rulebook CWE before any tool call; or as exploitable after a single tool call, with no prompt for another hop yet; or as exploitable at 0.85 with a single tool's name, with no prompt for a second angle yet; and all its tool calls count |
| Investigation.RunEndsExactlyWhen | internal/semantic/analysis/analysis.go:516-686 | a run ends with the first failed call or answer without such a prompt, or with the ninth call; the answer is the content of that reply |
| Investigation.ExploitableAnswersAreChased | internal/semantic/analysis/analysis.go:570-652 | on a rulebook CWE an exploitable answer before the ninth call follows two tool calls or the prompt for another hop, and at 0.85 two tools or the prompt for a second angle; no other answer after a tool call is turned down |
| Investigation.OneHopIsChased | internal/semantic/analysis/analysis.go:570-608 | one tool call and then an exploitable answer: the run goes on, with the prompt for another hop sent |
| Verdicts.SelfConsistencyCheck | internal/semantic/analysis/analysis.go:700-731 | NO without YES costs 0.3 of confidence, floored at 0, and the exploitable flag below 0.6; anything else changes nothing |
| Verdicts.InvestigationGuards | internal/semantic/analysis/analysis.go:304-331 | the two investigation guards cap the confidence at 0.5 and touch nothing else but the explanation |
| Verdicts.ApplyGuards | internal/semantic/analysis/analysis.go:304-365 | the four guards in order have the closed form that the reasoning results are proved about |
| Verdicts.ScanOne | internal/semantic/analysis/analysis.go:185-370 | a finding results exactly if the model gave text, and it is the guarded verdict of the run's evidence under the surface's ID |
| Verdicts.SnippetIsTheHead | internal/semantic/analysis/verdict.go:211-218 | the snippet's lines are the first thirty lines of the surface's code |
| Verdicts.ReportedExactly | internal/semantic/analysis/analysis.go:304-365 | the reported confidence and flag for every verdict and evidence: at most 0.5 if no tool was called, one tool carries 0.85, or the explanation hedges; 0.3 less, and exploitable from 0.9 on, after a second opinion of NO at 0.85; otherwise the model's |
| Verdicts.ReportedAs | internal/semantic/analysis/verdict.go:160-235 | the CWE, line, severity and pin that a verdict is filed with |
| Reasoning.SuppressedExactlyWhen | internal/pipeline/reasoning.go:169-246 | a violation is suppressed exactly by a not-exploitable verdict at 0.75 or more on no other CWE, investigated where that is required |
| Reasoning.ElevatedExactlyWhen | internal/pipeline/reasoning.go:169-246 | a violation is elevated exactly by an uncapped exploitable verdict at 0.7 or more that the second opinion did not bring below |
| Reasoning.DoubtedVerdictCanElevate | internal/semantic/analysis/analysis.go:700-731 | a verdict at 1.0 reached with two tools and answered NO by the second opinion elevates at 0.7 |
| Reasoning.UninvestigatedChangesNothing | internal/semantic/analysis/analysis.go:304-312 | on a rulebook CWE a verdict without a tool call neither suppresses nor elevates |
| Reasoning.HighConfidenceTakesTwoTools | internal/semantic/analysis/analysis.go:314-331 | an elevation at 0.85 or more on a rulebook CWE follows calls of two different tools |
| Reasoning.SecondOpinionNeverSuppresses | internal/semantic/analysis/analysis.go:700-731 | a second opinion of NO never leads to suppression and always lowers the confidence |
| Reasoning.ElevatedSeverity | internal/pipeline/reasoning.go:44-50 | an elevated violation is HIGH or BLOCK exactly from 0.75 on |
| Reasoning.ElevatedToMedium | internal/pipeline/reasoning.go:44-50 | at 0.72 a MEDIUM violation is elevated to MEDIUM |
| Reasoning.SilentModelChangesNothing | internal/semantic/analysis/analysis.go:501-686 | over a whole run, a model that never calls a tool cannot change a violation on a rulebook CWE |
| Reasoning.EveryRunKeeps | internal/semantic/analysis/analysis.go:304-686 | for every sequence of replies on a rulebook CWE: at most nine Chat calls, a tool call before every answer but the forced one and before every change of the violation, two tool names before an elevation at 0.85, and no suppression after a second opinion of NO |
| Reasoning.ProcessB5Findings | internal/pipeline/reasoning.go:169-246 | every finding is settled with its violation, passed through if it has none, or dropped as no change; handled are exactly the changed violations |
| Reasoning.DedupInPlace | internal/pipeline/reasoning.go:413-424 | deduplication within the slice being read leaves the first surface of every ID, in order |
| Reasoning.FirstOfEachIDIsFaithful | internal/pipeline/reasoning.go:413-424 | the queue loses no surface ID and holds none twice |
| Reasoning.FileViolations | internal/pipeline/reasoning.go:331-337 | the map holds one finding for exactly the IDs of the violating surfaces, each as filed for the last violation of that ID |
| Reasoning.SplitResults | internal/pipeline/reasoning.go:316-324 | results are split by verdict in their order |
| Reasoning.TaintGate | internal/pipeline/reasoning.go:386-402 | escalated surfaces are split into strong and weak ones in their order |
| Reasoning.RunReasoning | internal/pipeline/reasoning.go:248-485 | after the crypto findings, each surface ID is sent at most once, exactly if it has a violation or a B5 finding, a violation as settled and any other finding as it is |
| Reasoning.LedgerHolds | internal/pipeline/reasoning.go:447-467 | the settled findings and the unchanged violations together are that account |
| Reasoning.EveryViolationOnce | internal/pipeline/reasoning.go:447-467 | no violation is lost or duplicated: each is sent exactly once, suppressed, elevated or unchanged |
| Reasoning.WhatBecomesOfAViolation | internal/pipeline/reasoning.go:169-246 | field by field: a filed violation is sent once, SUPPRESSED and pinned with the verdict's reason and otherwise unchanged exactly for a dismissing verdict, with the reported confidence and its tier exactly for a confirming one, and else as it was filed |
| Reasoning.ProcessedOne | internal/pipeline/reasoning.go:169-246 | the same for one finding of the loop; one without a violation is passed on |
| Reasoning.ProcessedAdds | internal/pipeline/reasoning.go:169-246 | the loop's output is that of its findings one after the other |
| Reasoning.QueuedExactly | internal/pipeline/reasoning.go:386-424 | an ID is queued exactly if triage escalated it with a sink or a contract's CWE or it has a violation; what is queued is the escalated surface with a sink if there is one, or else the violating one under its violated CWE, or else the one with a contract's CWE only |
| Reasoning.WithVerdictAdds | internal/pipeline/reasoning.go:316-324 | splitting by verdict keeps the order |
| Reasoning.InBucketAdds | internal/pipeline/reasoning.go:386-402 | so does splitting by taint evidence |
| Reasoning.OneResult | internal/pipeline/reasoning.go:151-161 | a surface with a sink is strong, one with a contract's CWE only is weak, and any other is dropped |
| Reasoning.RoutedInOrder | internal/pipeline/reasoning.go:404-411 | every violation is routed, in order, under its CWE |
| Reasoning.ViolationsAreGated | internal/pipeline/reasoning.go:404-411 | a violating surface that triage did not escalate too is investigated under its violated rulebook CWE |
| Reasoning.ViolatingSurfacesAreGated | internal/pipeline/reasoning.go:404-424 | any violating surface is investigated under a rulebook CWE unless triage escalated it too with strong taint evidence |
| Reasoning.EveryViolationIsGated | internal/pipeline/reasoning.go:314-424 | with one contract result for each surface, every violation is investigated under its rulebook CWE |
| Reasoning.UninvestigatedViolationSurvives | internal/pipeline/reasoning.go:169-246 | a violation whose answers were all given without a tool call is sent exactly as it was filed |
| Contracts.Escalate | internal/semantic/contracts/check.go:416-467 | Safe exactly on a strict majority of YES among the samples that came back |
| Contracts.CheckOne | internal/semantic/contracts/check.go:190-385 | the outcome for one CWE, from rulebook, sinks, code text, sanitizers and votes |
| Contracts.CheckList | internal/semantic/contracts/check.go:190-385 | the loop returns a maximum under (verdict, then for violations sink match, then smaller CWE number), or Inconclusive with the first CWE if none applies |
| Contracts.Check | internal/semantic/contracts/check.go:145-385 | the same for the surface kind's list of CWEs; a violated CWE is in the rulebook |
| Contracts.VerdictExactlyWhen | internal/semantic/contracts/check.go:190-389 | the verdict is Violation exactly if some listed CWE's anchor is hit, the call path is not empty, no sanitizer was seen and neither the model nor, without one, a safe node vouches for the code; Safe exactly if there is none and the surface complies with one; a Violation is reported under one anchored by a sink if there is any, of these the smallest number |
| Contracts.InconclusiveUnder | internal/semantic/contracts/check.go:215-371 | an Inconclusive verdict is reported under the first CWE that applies |
| Contracts.NothingApplies | internal/semantic/contracts/check.go:371-385 | if none applies, the result is Inconclusive under the first of the list |
| Contracts.TriedFor | internal/semantic/contracts/check.go:145-170 | the CWEs tried for each kind of surface |
| Contracts.OrderDoesNotMatter | internal/semantic/contracts/check.go:215-389 | for any two orders of the list the verdict is the same, and so is the CWE unless the verdict is Inconclusive |
| Contracts.ApplicableNumbersDiffer | internal/semantic/contracts/check.go:145-170 | no two CWEs of a list have the same number |
| Contracts.ApplicableDescend | internal/semantic/contracts/check.go:143-164 | three of the lists have CWE-89 before CWE-78 |
| Contracts.CheckOrderDoesNotMatter | internal/semantic/contracts/check.go:145-389 | so the verdict of Check, and its CWE unless Inconclusive, are the same for every permutation of the kind's list |
| Contracts.InconclusiveIsIndependentExactlyWhen | internal/semantic/contracts/check.go:215-371 | an Inconclusive result is the same for every permutation of the list exactly if one CWE alone applies, or none does and the list names one |
| Contracts.InconclusiveKeepsTheFirst | internal/semantic/contracts/check.go:159-164 | an IDOR candidate that opens a file and has no call path is reported under CWE-862, and with CWE-22 tried first under that |
| SinkContext.SinkContextLines | internal/pipeline/reasoning.go:56-99 | the window around the first line that names a sink, with its line numbers, or the first 20 lines |
| SinkContext.ViolationToFinding | internal/pipeline/reasoning.go:103-147 | a MEDIUM finding at 0.65 located by that window, by the first 20 lines, or by the sinks' labels |
| SinkContext.WindowIsFiveAround | internal/pipeline/reasoning.go:88-98 | the window are the lines at most five away from the sink's |
| SinkContext.SinkNameIsBehindTheDot | internal/pipeline/reasoning.go:66-72 | a sink is searched for by what follows its last dot |
| SinkContext.CodeLines | internal/report/report.go:194-215 | the numbered listing of a snippet without its trailing newlines |
| SinkContext.ReportHighlightsTheSink | internal/report/report.go:194-215 | the listing of a violation counts the body's lines from the surface's line on and highlights exactly the first one that names a sink |
| ReportLines.ReportFollowsFileExactlyWhen | internal/report/report.go:194-215 | the listing shows consecutive lines of the file, the sink's highlighted; each number is off by as much as the surface's line is from the body's first line, so all are the file's exactly if these are the same |
| ReportLines.ReportIsRightExactlyWhen | internal/semantic/enrichment/enrichment.go:446-453 | with the body read at the surface's line, they are the file's numbers exactly if that line is within the file and is the signature's, or, where no body was opened, is not blank |
| ReportLines.AnnotationAboveShifts | internal/semantic/enrichment/enrichment.go:850-869 | where the given line opens the body and the one above can begin a signature, every number is one too high |
| ReportLines.ClosingBraceAboveShifts | internal/semantic/enrichment/enrichment.go:788-848 | where the given line closes the method before, every number is too low |
| ReportLines.CallIsMisnumbered | internal/report/report.go:194-215 | in a four-line file with an annotated method, the call on line 3 is listed and highlighted as line 4 |
| Walks.FrontierSuffices | internal/cpg_engine/graph_impl.go:642-675 | what lies within one more step is what is adjacent to the nodes at exactly the last distance |
| Walks.NextLevel | internal/cpg_engine/graph_impl.go:642-675 | the unvisited neighbours of a level are exactly the next level |
| Walks.NothingBeyondAnEmptyLevel | internal/cpg_engine/graph_impl.go:642-675 | a search may stop at an empty frontier |
| Walks.DetoursMakeAWalk | internal/cpg_engine/graph_impl.go:642-675 | if detours between stops are matched by walks, so is every path from a stop |
| Neighbours.ExpandLevel | internal/cpg_engine/graph_impl.go:642-675 | one level collects the unvisited neighbours once each, or fails exactly if a query fails |
| Neighbours.Search | internal/cpg_engine/graph_impl.go:642-675 | exactly the non-root nodes at distance 1 to depth, once each, in non-decreasing distance; fails exactly if a node to be expanded cannot be queried |
| Neighbours.GetNeighboursAtDepth | internal/cpg_engine/graph_impl.go:629-676 | the depth and ID checks, the stored query's rows or the error of reading them, and the search if the query cannot be started |
| Neighbours.RowsAreWalks | pkg/postgres/cpg.go:285-309 | the recursive query's depth column counts the steps of a walk |
| Neighbours.WalksAreRows | pkg/postgres/cpg.go:285-309 | and every walk is derived with its length |
| Neighbours.QueryAgreesWithSearch | pkg/postgres/cpg.go:285-309 | with one build in the table, stored ends and plain IDs, the recursive query and the search name the same nodes |
| Neighbours.QueryIncludesSearch | pkg/postgres/cpg.go:285-309 | on any store the query returns every node that the search finds |
| Neighbours.AgreesExactlyWhen | pkg/postgres/cpg.go:285-309 | on any store the two agree from every plain stored root at every allowed depth and the search succeeds exactly if every path of calls between stored nodes that meets no plain stored node in between is matched by as short a walk of the search, and no plain stored node is joined by a call to a stored empty ID |
| Neighbours.SearchSucceeds | internal/cpg_engine/graph_impl.go:550-611 | on such a table no query of the search fails |
| Neighbours.ForeignCallsLeak | pkg/postgres/cpg.go:285-309 | a call of another project reaches a node in the query and not in the search |
| Neighbours.DanglingEndsLeak | pkg/postgres/cpg.go:285-309 | so does a path through an ID that is no node |
| Neighbours.EmptyIdsFail | internal/cpg_engine/graph_impl.go:550-611 | a call to a node with an empty ID fails the search, where the query names the node |
| Neighbours.SyntheticNodesLeak | pkg/postgres/cpg.go:285-309 | so does a path through a synthetic node |
| Attribution.ExpandUp | internal/semantic/enrichment/enrichment.go:264-302 | one level upward: the unvisited callers, and the surfaces among them |
| Attribution.WalkUp | internal/semantic/enrichment/enrichment.go:237-302 | finds a surface exactly if one lies within three calls, and then all the nearest ones |
| Attribution.FindsNothingExactlyWhen | internal/semantic/enrichment/enrichment.go:264-302 | nothing is found exactly if no surface lies within three calls |
| Attribution.FourCallersUpIsTooFar | internal/semantic/enrichment/enrichment.go:264-302 | a surface exactly four callers up is not found, although the loop is written for six levels |
| Attribution.SingleMatchIsUnique | internal/semantic/enrichment/enrichment.go:304-325 | there is a single match exactly if one surface is nearest and alone at that distance |
| Attribution.NearestSurface | internal/semantic/enrichment/enrichment.go:237-325 | the surface given to a path is the unique nearest one, and none is given if there is none or several |
| Attribution.FindCandidates | internal/semantic/enrichment/enrichment.go:216-325 | candidates are, in order, exactly the indirect paths with a unique nearest surface, and the fan-in map counts their claims |
| Attribution.GuardFanIn | internal/semantic/enrichment/enrichment.go:327-361 | every candidate is either committed or dropped |
| Attribution.Attribute | internal/semantic/enrichment/enrichment.go:216-361 | committed are the candidates within the fan-in limit, and candidates = committed + dropped |
| Attribution.CommittedExactlyWithinFanIn | internal/semantic/enrichment/enrichment.go:327-361 | a candidate is committed exactly if at most three distinct surfaces claim its sink |
| Route.EnclosingMethod | internal/poe/route.go:128-150 | the method with the largest declaration line not after the finding, or none exactly if there is no such method |
| Route.TryLevel | internal/poe/route.go:93-119 | one level of callers either declares a route or becomes the next frontier |
| Route.WalkToRoute | internal/poe/route.go:84-123 | succeeds exactly if the method or a caller within five hops declares a route; the route is one declared nearest |
| Route.ResolveRoute | internal/poe/route.go:68-123 | the same from the finding's enclosing method |
| Detection.InvOnEveryRun | internal/pipeline/pipeline.go:344-372 | in every interleaving, what each producer sent and has yet to send is its program |
| Detection.NoSendAfterClose | internal/pipeline/pipeline.go:346-363 | no run sends on the closed channel |
| Detection.NeverStuck | internal/pipeline/pipeline.go:344-372 | until the consumer leaves its loop some step can be taken |
| Detection.RunsAreBounded | internal/pipeline/pipeline.go:344-372 | every run ends |
| Detection.ReceivedIsWhatWasSent | internal/pipeline/pipeline.go:344-369 | in the end every finding sent was received once, in its producer's order |
| Detection.DeliveriesArePermutations | internal/pipeline/pipeline.go:344-369 | two error-free runs deliver permutations of each other |
| Dedup.MergeWithRecord | internal/dedup/gates.go:52-80 | the more confident finding wins, the label is joined across paths, a pinned loser keeps its severity, and the record names both |
| Dedup.Gate1 | internal/dedup/dedup.go:144-160 | one finding for every key, the merge of that key's findings, in the order in which the keys arrived; inputs = outputs + records, and every input's ID is kept or recorded as dropped |
| Dedup.MergedByPlace | internal/dedup/gates.go:42-80 | each finding has exactly one merged finding with its CWE, path and start line; that is, but for path label, severity and pin, a most confident one of those with the same |
| Dedup.MergedComesFrom | internal/dedup/gates.go:52-80 | of a group it is the first most confident one |
| KeyText.TextsAgreeExactlyWhen | internal/dedup/gates.go:42-46 | the hashed texts of two findings agree exactly if CWE, path and start line do, or the line does and a bar in one's CWE takes in the head of the other's path |
| KeyText.NoBarsNoShift | internal/dedup/gates.go:42-46 | so the text tells findings apart whose CWEs have no bar |
| Dedup.Process | internal/dedup/dedup.go:125-217 | without a history database every survivor is finished, and InputCount = OutputCount + MergeCount |
| Dedup.FinishAll | internal/dedup/dedup.go:193-207 | each survivor is finished in place and the suppressed ones are counted |
| Dedup.MergedConfidence | internal/dedup/gates.go:52-80 | the merged finding has the group's highest confidence |
| Dedup.MergedPin | internal/dedup/gates.go:52-80 | it is pinned exactly if some member is, with the severity of a pinned member |
| Dedup.MergedPath | internal/dedup/gates.go:52-80 | its path label is the common one, or BOTH |
| Dedup.ArrivalOrderDoesNotMatter | internal/dedup/dedup.go:144-160 | any arrival order gives the same keys, confidence, path label and pinned flag |
| Dedup.ScheduleDoesNotMatter | internal/pipeline/pipeline.go:344-378 | so does any two error-free schedules of the detection stage |
| Dedup.SomeoneDecides | internal/dedup/gates.go:52-80 | in every order the merged severity is that of a deciding member: a most confident one, or a pinned one that is not the single most confident |
| Dedup.DeciderHasItsOrder | internal/dedup/gates.go:52-80 | every deciding member decides in some order |
| Dedup.LabelIsIndependentExactlyWhen | internal/dedup/dedup.go:144-160 | the merged severity is the same for every order exactly if the deciding members agree on it |
| Dedup.PinnedLabelDependsOnOrder | internal/dedup/gates.go:52-80 | three pinned findings that disagree give a severity that depends on the order |
| Scoring.ApplyBoostAndScore | internal/dedup/dedup.go:272-297 | the five adjustments in order compute the scored finding the results below are about |
| Scoring.ScoreBounds | internal/dedup/dedup.go:272-297 | scoring stays in [0, 1], never lowers a confidence, keeps pattern findings at the floor and pinned severities as they are |
| Scoring.ScoredExactly | internal/dedup/dedup.go:272-297 | the scored confidence in one formula over path, CVSS, SSVC and exploitability, and the severity: the filed one if pinned, or else its tier |
| Scoring.ConfidenceIsNotMonotone | internal/dedup/dedup.go:272-297 | with the defaults 0.90 scores 1.0 and 0.92 scores 0.92 |
| Scoring.ConfidenceMonotoneExactlyWhen | internal/dedup/dedup.go:272-297 | the scored confidence is monotone exactly if the cross-path boost is 0 or the block threshold is 0 or 1 |
| Scoring.TierMonotoneExactlyWhen | internal/dedup/dedup.go:272-297 | a higher confidence never gives a less severe tier exactly if no tier threshold lies strictly between the block threshold and the boosted block threshold |
| Scoring.DefaultTiersAreMonotone | internal/finding/finding.go:300-313 | in particular with the block threshold at 0.92 or above |
| CryptoBarrier.InvOnEveryRun | internal/semantic/crypto/crypto.go:39-66 | in every interleaving tokens count the running workers and the filled places, and the output is what the finished workers found |
| CryptoBarrier.AtMostWidthWorkers | internal/semantic/crypto/crypto.go:43-60 | at most w workers run at once |
| CryptoBarrier.ReturnWaitsForEveryWorker | internal/semantic/crypto/crypto.go:61-65 | on return every worker has exited and the output is the multiset union of all checks |
| CryptoBarrier.NeverStuck | internal/semantic/crypto/crypto.go:39-66 | before that some step can be taken |
| CryptoBarrier.RunsAreBounded | internal/semantic/crypto/crypto.go:39-66 | every run ends within four steps a surface and w + 2 more |
| JoernLifecycle.InvOnSequentialRuns | internal/cpg_engine/joern.go:231-347 | with sequential callers a process whose watcher is not through is the managed one or the one Stop waits for |
| JoernLifecycle.NoFalseAlarm | internal/cpg_engine/joern.go:273-291 | with sequential callers a live managed process is never reported as crashed, and no watcher of an older process is still to report |
| JoernLifecycle.ExitsAreTold | internal/cpg_engine/joern.go:281-318 | with sequential callers the watcher of a managed process finds stopping not set, and that of a process being stopped finds it set once Stop has marked it |
| JoernLifecycle.StopLeavesARestartableClient | internal/cpg_engine/joern.go:308-347 | when Stop returns its process is dead and the client can be started again |
| JoernLifecycle.StopAlwaysProgresses | internal/cpg_engine/joern.go:308-347 | a Stop under way always has a step that brings its return nearer; only after SIGKILL is that the process's own death |
| JoernLifecycle.NothingSetsAStopBack | internal/cpg_engine/joern.go:308-347 | no step of anyone takes it further away |
| JoernLifecycle.ConcurrentStartCanBeReportedCrashed | internal/cpg_engine/joern.go:231-347 | a Start while another caller is inside Stop can leave a live process reported as crashed |
| JoernLifecycle.LivingAreWatchedOnEveryRun | internal/cpg_engine/joern.go:281-291 | whatever the callers do, the watcher of a living process is still waiting for it |
| JoernLifecycle.FalseAlarmExactlyWhen | internal/cpg_engine/joern.go:273-291 | whatever the callers did before, processes and watchers alone can still raise a false alarm exactly if an older process's watcher is pending |
| JoernLifecycle.StartRisksFalseAlarmExactlyWhen | internal/cpg_engine/joern.go:231-291 | the process that a Start spawns can be reported as crashed while it lives, with no caller acting any more, exactly if some watcher was still waiting when the Start began |
| DiffIndex.ShouldSkip | internal/ingestion/diffindex/diffindex.go:269-277 | a path is skipped exactly if one of its names is a skipped directory or its last name ends like a binary file |
| DiffIndex.ExtIsBehindTheLastDot | internal/ingestion/diffindex/diffindex.go:269-277 | an ending is the last dot of a name and what follows it |
| DiffIndex.VisitedExactly | internal/ingestion/diffindex/diffindex.go:105-140 | the walk visits exactly the readable files none of whose path's names is excluded |
| DiffIndex.WalkVisitsOnce | internal/ingestion/diffindex/diffindex.go:105-140 | and each of them once |
| DiffIndex.StateTable.Upsert | pkg/postgres/state.go:52-61 | sets the one row of a project and path |
| DiffIndex.StateTable.Delete | pkg/postgres/state.go:80-84 | drops that row and no other |
| DiffIndex.Indexer.Walk | internal/ingestion/diffindex/diffindex.go:105-164 | the files reached before the walk ends are recorded in the table one after the other, and the changed and seen ones listed |
| DiffIndex.UpsertedRows | pkg/postgres/state.go:52-61 | recording them sets the project's rows and no others |
| DiffIndex.UpsertedNow | pkg/postgres/state.go:52-61 | every row recorded has the time of the scan |
| DiffIndex.Indexer.Diff | internal/ingestion/diffindex/diffindex.go:84-181 | the change set lists the files whose digest differs from the prior rows and the prior rows not seen; a failed walk has recorded a prefix |
| DiffIndex.Indexer.Commit | internal/ingestion/diffindex/diffindex.go:191-209 | deletes the removed rows, or a prefix of them on an error |
| DiffIndex.ScanOnce | internal/ingestion/diffindex/diffindex.go:84-209 | Diff and Commit together do to the table what the scan step does |
| DiffIndex.ScanTracksExactlyWhen | internal/ingestion/diffindex/diffindex.go:142-172 | from any table and replica, a scan makes the replica equal to the tree exactly if no current file was recorded without being handed on and no vanished file was forgotten |
| DiffIndex.HistoryTracks | internal/ingestion/diffindex/diffindex.go:84-209 | over any history of edits the table and the replica equal the last scanned tree |
| DiffIndex.FilesExactly | internal/ingestion/diffindex/diffindex.go:105-140 | that tree is its readable files with no excluded name on their path |
| DiffIndex.NoEditsNoChanges | internal/ingestion/diffindex/diffindex.go:142-172 | a repeat without edits yields an empty change set |
| DiffIndex.BrokenScanLosesExactly | internal/ingestion/diffindex/diffindex.go:146-161 | after a failed scan the next one tracks its tree exactly if every change recorded by the failed one is gone again |
| DiffIndex.RetryTracksExactlyWhen | internal/ingestion/diffindex/diffindex.go:146-161 | a retry on the same tree does exactly if the failed scan had recorded no change |
| DiffIndex.RetryLosesTheFile | internal/ingestion/diffindex/diffindex.go:146-161 | a one-file tree recorded by a scan that failed: the retry never hands the file on |
| DiffIndex.BrokenCommitLosesExactly | internal/ingestion/diffindex/diffindex.go:191-209 | after a Commit that deleted only some removed rows, the next scan tracks its tree exactly if none of the others is back with its old digest |
| Gguf.Reader.ReadFull | internal/ingestion/miv/hash.go:150-163 | takes exactly n bytes or reports the end of input |
| Gguf.Reader.ReadString | internal/ingestion/miv/hash.go:150-163 | reads a length-prefixed string within the limit |
| Gguf.Reader.SkipValue | internal/ingestion/miv/hash.go:165-202 | moves past one value as the parsing function says, with its error otherwise |
| Gguf.Reader.ReadModelID | internal/ingestion/miv/hash.go:88-148 | returns what the parsing function finds in the bytes ahead |
| Gguf.Skip | internal/ingestion/miv/hash.go:165-202 | a skipped value takes at least one byte |
| Gguf.SkipAll | internal/ingestion/miv/hash.go:182-195 | skipping an array takes at least as many bytes as its count, so no count can outrun the file |
| Gguf.SkipOfKind | internal/ingestion/miv/hash.go:165-202 | of any bytes a type of fixed size takes 1, 2, 4 or 8 by its number, and any other number is an error |
| Gguf.SkipOfEncoded | internal/ingestion/miv/hash.go:165-202 | skipping a value encoded by the format takes exactly its bytes, or fails for its first element that is too deep or too long |
| Gguf.NoErrorExactlyWhen | internal/ingestion/miv/hash.go:165-202 | there is none exactly if no element lies deeper than level 8 and all strings are within 1 MiB |
| Gguf.ModelNameOfEncoded | internal/ingestion/miv/hash.go:88-148 | every encoded header is answered by its version, its pair count, or its pairs' name or first error |
| Gguf.NamedExactlyWhen | internal/ingestion/miv/hash.go:88-148 | a name is found exactly if the first general.name is a string within the limit with only skippable pairs before it |
| Gguf.NotGgufExactlyWhen | internal/ingestion/miv/hash.go:88-100 | any bytes are taken for no GGUF file exactly if there are four that are not the magic |
| Gguf.TrailingBytesAreIrrelevant | internal/ingestion/miv/hash.go:88-148 | bytes after the input never change the answer, unless the answer was the end of input |
| Gguf.CutsBeforeTheNameFail | internal/ingestion/miv/hash.go:88-148 | a cut file gives the name exactly if the cut is not before the name's end, and otherwise reports the end of input |
| Repl.StripANSI | internal/cpg_engine/http.go:370-391 | the byte loop computes the stripping function |
| Repl.StripKeepsThePlainText | internal/cpg_engine/http.go:370-391 | of plain text with complete control sequences in between exactly the plain text is left |
| Repl.AnchorAfterPrefix | internal/cpg_engine/http.go:320-325 | the anchor cannot overlap itself, so the first one is the wrapper's |
| Repl.UnwrapInvertsWrap | internal/cpg_engine/http.go:297-391 | unwrapping inverts wrapping for any content, under control sequences and surrounding blanks |
| Repl.PlainUnwrapInvertsWrap | internal/cpg_engine/http.go:297-325 | the same for plain output with any prefix that is not blank and has no anchor |
| Repl.BlankPrefixIsNotUnwrapped | internal/cpg_engine/http.go:297-366 | with a blank prefix and no further assignment the wrapping stays on |
| Repl.PlainUnwrapsExactlyWhen | internal/cpg_engine/http.go:297-366 | for any prefix without an anchor and any content, plain wrapped output is unwrapped exactly if the prefix is not blank |
| Repl.BareValueIsKept | internal/cpg_engine/http.go:297-366 | a bare value is only trimmed |
| Repl.AssignedLiteral | internal/cpg_engine/http.go:327-363 | an assigned string literal is taken from its last assignment and decoded if it can be |
| FunctionBody.StripStringsAndComments | internal/semantic/enrichment/enrichment.go:741-765 | the byte loop computes the stripping function |
| FunctionBody.StripKeepsCodeExactlyWhen | internal/semantic/enrichment/enrichment.go:741-765 | of a line of code, string and character literals and a comment exactly the code with its string literals emptied is left, exactly if no // comes before the comment and no character literal holds a double quote |
| FunctionBody.SlashesInALiteralHideTheRest | internal/semantic/enrichment/enrichment.go:741-748 | behind any code and literals, a literal that holds the line's first // hides everything from its opening quote on |
| FunctionBody.QuoteInACharacterHidesTheRest | internal/semantic/enrichment/enrichment.go:741-765 | behind any code and string literals, a double quote in a character literal hides everything after it, if no further one comes |
| FunctionBody.StartOf | internal/semantic/enrichment/enrichment.go:782-797 | the start is the given line, or beyond the file's end the method's first declaration |
| FunctionBody.FindNear | internal/semantic/enrichment/enrichment.go:799-848 | the first opening line within ten, unless it is the next method's; a class's stands for its first method's |
| FunctionBody.FindByName | internal/semantic/enrichment/enrichment.go:871-911 | the opening line of the first declaration of the method that has one nearby |
| FunctionBody.SignatureOf | internal/semantic/enrichment/enrichment.go:850-869 | the nearest line above that can begin the signature, not across a boundary and at most eight lines away |
| FunctionBody.CollectBraces | internal/semantic/enrichment/enrichment.go:939-961 | the run ends at the first line from the opening one on after which the depth is 0 or below, unless the cap or the end of the file comes first |
| FunctionBody.CollectWindow | internal/semantic/enrichment/enrichment.go:913-930 | the window ends at the next method-like line, after 20 lines or at the cap |
| FunctionBody.ReadFunctionBody | internal/semantic/enrichment/enrichment.go:777-971 | for every content, line and name the body is taken from a contiguous run of existing lines found by these rules, or is empty exactly as the start is missing |
| FunctionBody.BodyIsTheTrimmedRun | internal/semantic/enrichment/enrichment.go:927-971 | the body is the trimmed text of its run; a brace run is never blank, and the clipped-line fallback is always blank |
| FunctionBody.BraceRunIsBalanced | internal/semantic/enrichment/enrichment.go:939-961 | counted outside strings and comments, opening braces outnumber closing ones after every line of a brace run from the opening line on but the last, and not after the last, unless the cap or the end of the file comes first |
| FunctionBody.OpeningLineHasBrace | internal/semantic/enrichment/enrichment.go:799-911 | every line chosen as opening has a brace outside strings and comments |
| BodyLines.BodyShowsFileLines | internal/semantic/enrichment/enrichment.go:913-971 | the body's lines are consecutive lines of the file, trimmed at the two ends: all of its run from the signature, or from the window's first line that is not blank, to the last that is not |
| BodyLines.BeginsOnStartExactlyWhen | internal/semantic/enrichment/enrichment.go:850-930 | the body begins on the given line exactly if that is the signature's line; or, in a window, is not blank or nothing is |
| BodyLines.BodyIsDetermined | internal/semantic/enrichment/enrichment.go:777-971 | the rules of where a body lies leave no choice: one start and name have one body |
| MethodText.LineMeans | internal/semantic/enrichment/enrichment.go:975-1010 | what the tests of a line ask: modifiers, type words, and a brace at the end once strings, comments and blanks are gone |
| MethodText.MethodIsRead | internal/semantic/enrichment/enrichment.go:799-971 | where the first opening line among ten from the given one on is a method's, and not the next method's unless the given line closes the one before, that method is read: from its signature, at most eight lines up, to its balancing brace, 6000 characters or the end of the file |
| MethodText.FirstMethodOfTypeIsRead | internal/semantic/enrichment/enrichment.go:831-848 | where it is a type's, its first declared method within thirty lines is read |
| MethodText.MethodIsReadByName | internal/semantic/enrichment/enrichment.go:871-911 | where nothing is opened near the line, the first declaration of the named method that is opened within ten lines is read |
| MethodText.WindowIsRead | internal/semantic/enrichment/enrichment.go:913-930 | or, without one, at most twenty lines up to the next declaration |
| TextWindows.TruncateUTF8 | internal/semantic/analysis/prompt.go:327-335 | a prefix that ends at the last possible character start within the limit |
| TextWindows.PrefixValidExactly | internal/semantic/analysis/prompt.go:322-335 | a prefix of valid UTF-8 is valid exactly if it ends where a character starts |
| TextWindows.TruncationKeepsUTF8 | internal/semantic/analysis/prompt.go:322-335 | valid UTF-8 is cut to its longest valid prefix within the limit, at most three bytes short of it |
| TextWindows.TruncateAroundLine | internal/semantic/analysis/prompt.go:379-418 | the result is the best window around the clamped line with marks for what is left out |
| TextWindows.GrowWindow | internal/semantic/analysis/prompt.go:388-408 | the window contains the line, fits the budget unless the line alone does not, cannot be grown, and is balanced |
| TextWindows.LargerWindowsExceed | internal/semantic/analysis/prompt.go:388-408 | every strictly larger window exceeds the budget |
| TextWindows.BestWindowIsUnique | internal/semantic/analysis/prompt.go:388-408 | no other window has these properties |
| TextWindows.WholeCodeIfItFits | internal/semantic/analysis/prompt.go:379-418 | code within the budget comes back unchanged |
| TextWindows.TargetSurvives | internal/semantic/analysis/prompt.go:374-418 | the target line is a line of the result, at its place |
| PromptCode.StripIndent | internal/semantic/analysis/prompt.go:421-427 | every line loses its leading blanks and tabs, and nothing else changes |
| PromptCode.MinifyCode | internal/semantic/analysis/prompt.go:358-372 | the lines that are neither blank nor comment lines, in order |
| PromptCode.DroppedExactlyWhen | internal/semantic/analysis/prompt.go:358-372 | a line is dropped exactly if it is blank or begins with // or # behind blanks |
| PromptCode.CodeForPrompt | internal/semantic/analysis/prompt.go:250-266 | the remaining lines, or above the budget their best window around the line computed from the sink's, or their head |
| PromptCode.LineOfFile | internal/semantic/enrichment/enrichment.go:913-971 | but for blanks around, a remaining line is the line of the file at its place |
| PromptCode.TargetIsLineExactlyWhen | internal/semantic/analysis/prompt.go:358-388 | a remaining line moves up by the lines dropped before it, and a target that is less by a shift is that line exactly if as many were dropped, or more and no later line remains |
| PromptCode.TargetIsSinkExactlyWhen | internal/semantic/analysis/prompt.go:250-266 | the window is built around the sink's line of the file exactly if the lines dropped before it make up for how far the surface's line is behind the body's first line |
| PromptCode.UnshiftedTargetExactlyWhen | internal/semantic/analysis/prompt.go:250-266 | where the body begins on the surface's line, exactly if no line before the sink was dropped or no later line remains |

## Left out

- HTTP, subprocesses, SQL drivers and file reads: their results are parameters or tables.
- Prompts, the JSON and salvage parsers of model replies, and the tool implementations: the parser is an arbitrary function, and a tool call is only its name.
- The tool result cache and the repeated-call reminder of the investigation loop: they change what the model is told, and the model may reply with anything already.
- Justification, summary, patch and proof-of-exploit texts of a finding: no modelled decision reads them.
- Hashes: SHA-256 digests and finding IDs are taken to be injective, and file contents stand for their digests.
- The code that Joern records for a method node, which a surface gets where no body can be read: the results on bodies are about bodies that were read.
- The cuts of triage and of the second opinion, which drop no lines before they compute the window.
- Gate1: keys are compared by CWE, path and start line, where the code compares a truncated hash of their text; for CWEs without a bar the texts differ where these do (`KeyText.NoBarsNoShift`).
- Case folding, trimming and letters are those of ASCII.
- Comment stripping in the contract check is an arbitrary function of the code.
- Cancellation and early return in `CheckAll` of the crypto checker: runs without it are modelled.
- The detectors behind `runDeterministic`, which fill a buffer under a mutex before the first send: each producer of `Detection` sends an arbitrary sequence.
- Historical deduplication, the two stub gates and SSVC sourcing: the finishing pass of each survivor is an arbitrary function in `Dedup`, and `Scoring` models its scoring step.
- Node attributes other than the ID, and the two lookup caches of the graph.
- The recursive query has the walk meaning that its two recursive arms state in standard SQL. PostgreSQL may reject the text, because the first arm refers to `bfs` inside what parses as the non-recursive term; every call then goes to the search, the `Unavailable` case of `Neighbours.GetNeighboursAtDepth`.
- The query returns its rows by node ID and the search by distance; only the sets of nodes are compared.
- The Joern client is a value stepped through its runs, not an object, because its fields change under interleaving. Readiness polling, port checks and spawning may end either way.
- The channel, the wait groups and the mutexes are steps of state machines on values, for the same reason.
- The order in which unchanged violations are sent is left open, as the map iteration leaves it.
- Route conventions of the web frameworks: whether a method declares a route is a parameter.
- The scope builder, CPG paging and snapshots, renderers, signing and the command line.
