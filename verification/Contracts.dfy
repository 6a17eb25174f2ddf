/** The deterministic contract check: one outcome per applicable CWE, of which the best
    becomes the surface's verdict (internal/semantic/contracts/check.go). */
module Contracts {
  import opened Findings
  import opened Surfaces
  import Text

  /** In ascending priority, as declared. */
  datatype Judgement = Inconclusive | Safe | Violation
  {
    function Rank(): nat {
      match this
      case Inconclusive => 0
      case Safe => 1
      case Violation => 2
    }
  }

  datatype Invariant = Invariant(noSinkModel: bool, sinkAnchors: seq<string>, safeNodes: seq<string>)

  datatype Result = Result(surface: Surface, verdict: Judgement, cwe: string)

  /** One escalation sample: the call failed, or its last word was or was not YES. */
  datatype Sample = Failed | Yes | No

  const ESCALATION_SAMPLES := 3

  /** The rulebook, the comment and string stripper, and for each CWE the samples the language
      model would give; votes == None means no model is configured. */
  datatype Checker = Checker(
    book: map<string, Invariant>,
    strip: string -> string,
    votes: Option<string -> seq<Sample>>)
  {
    ghost predicate Valid() {
      votes.Some? ==> forall cwe :: |votes.value(cwe)| == ESCALATION_SAMPLES
    }
  }

  datatype Candidate = Candidate(cwe: string, verdict: Judgement, sinkMatched: bool)

  function ApplicableCWEs(kind: Kind): seq<string> {
    match kind
    case ExternalInput => ["CWE-22", "CWE-89", "CWE-78", "CWE-79", "CWE-94", "CWE-502", "CWE-918"]
    case AuthBoundary => ["CWE-862", "CWE-89", "CWE-78"]
    case IDORCandidate => ["CWE-862", "CWE-89", "CWE-78", "CWE-22"]
    case DangerousSink => ["CWE-327"]
    case OtherKind => []
  }

  predicate IsDigits(s: string) {
    s != "" && forall i | 0 <= i < |s| :: '0' <= s[i] <= '9'
  }

  function Decimal(s: string): nat
    requires forall i | 0 <= i < |s| :: '0' <= s[i] <= '9'
  {
    if s == "" then 0 else 10 * Decimal(s[..|s| - 1]) + (s[|s| - 1] as int - '0' as int)
  }

  /** The number in a CWE identifier, or 0 when there is none that fits 64 bits. */
  function CweNumber(cwe: string): nat {
    var n := if Text.HasPrefix(cwe, "CWE-") then cwe[4..] else cwe;
    if IsDigits(n) && Decimal(n) < 0x8000_0000_0000_0000 then Decimal(n) else 0
  }

  predicate AnchoredBySink(inv: Invariant, surface: Surface) {
    exists a, n | 0 <= a < |inv.sinkAnchors| && 0 <= n < |surface.sinkNodes| ::
      Text.Contains(surface.sinkNodes[n], inv.sinkAnchors[a])
  }

  predicate AnchoredByText(inv: Invariant, text: string) {
    exists a | 0 <= a < |inv.sinkAnchors| :: Text.Contains(text, inv.sinkAnchors[a])
  }

  predicate HasSafeNode(inv: Invariant, surface: Surface) {
    || (exists p, s | 0 <= p < |surface.callPath| && 0 <= s < |inv.safeNodes| ::
          Text.Contains(surface.callPath[p], inv.safeNodes[s]))
    || (exists s | 0 <= s < |inv.safeNodes| :: Text.Contains(surface.code, inv.safeNodes[s]))
  }

  /** Safety needs a strict majority of YES among the samples that came back. */
  predicate Affirmed(surface: Surface, samples: seq<Sample>) {
    surface.code != "" && multiset(samples)[Yes] > multiset(samples)[No]
  }

  /** What the check concludes about one CWE, or None when the CWE does not apply. */
  function Outcome(c: Checker, surface: Surface, cwe: string): Option<Candidate> {
    if cwe !in c.book then None
    else
      var inv := c.book[cwe];
      var sink := AnchoredBySink(inv, surface);
      if inv.noSinkModel then
        Some(Candidate(cwe, if surface.sanitized then Safe else Inconclusive, false))
      else if !sink && !(surface.code != "" && cwe != "CWE-89" && AnchoredByText(inv, c.strip(surface.code))) then
        None
      else if surface.callPath == [] then Some(Candidate(cwe, Inconclusive, sink))
      else if surface.sanitized then Some(Candidate(cwe, Safe, sink))
      else if c.votes.Some? then
        Some(Candidate(cwe, if Affirmed(surface, c.votes.value(cwe)) then Safe else Violation, sink))
      else Some(Candidate(cwe, if HasSafeNode(inv, surface) then Safe else Violation, sink))
  }

  method Escalate(surface: Surface, samples: seq<Sample>) returns (v: Judgement)
    requires |samples| == ESCALATION_SAMPLES
    ensures v == if surface.code != "" && multiset(samples)[Yes] > multiset(samples)[No] then Safe else Violation
  {
    if surface.code == "" {
      return Violation;
    }
    var yes, no, i := 0, 0, 0;
    while i < ESCALATION_SAMPLES
      invariant 0 <= i <= ESCALATION_SAMPLES
      invariant yes == multiset(samples[..i])[Yes] && no == multiset(samples[..i])[No]
    {
      assert samples[..i + 1] == samples[..i] + [samples[i]];
      match samples[i] {
        case Failed =>
        case Yes => yes := yes + 1;
        case No => no := no + 1;
      }
      i := i + 1;
    }
    assert samples[..i] == samples;
    return if yes <= no then Violation else Safe;
  }

  method CheckOne(c: Checker, surface: Surface, cwe: string) returns (candidate: Option<Candidate>)
    requires c.Valid()
    ensures candidate == Outcome(c, surface, cwe)
  {
    if cwe !in c.book {
      return None;
    }
    var inv := c.book[cwe];
    if inv.noSinkModel {
      return Some(Candidate(cwe, if surface.sanitized then Safe else Inconclusive, false));
    }
    var sinkMatched := AnchoredBySink(inv, surface);
    var anchorMatched := sinkMatched;
    if !anchorMatched && surface.code != "" && cwe != "CWE-89" {
      anchorMatched := AnchoredByText(inv, c.strip(surface.code));
    }
    if !anchorMatched {
      return None;
    }
    var v;
    if surface.callPath == [] {
      v := Inconclusive;
    } else if surface.sanitized {
      v := Safe;
    } else if c.votes.Some? {
      v := Escalate(surface, c.votes.value(cwe));
    } else if HasSafeNode(inv, surface) {
      v := Safe;
    } else {
      v := Violation;
    }
    return Some(Candidate(cwe, v, sinkMatched));
  }

  /** The code's test for replacing the best candidate so far. */
  predicate Replaces(x: Candidate, best: Candidate) {
    || x.verdict.Rank() > best.verdict.Rank()
    || (x.verdict == best.verdict && x.verdict == Violation &&
        ((x.sinkMatched && !best.sinkMatched) ||
         (x.sinkMatched == best.sinkMatched && CweNumber(x.cwe) < CweNumber(best.cwe))))
  }

  ghost predicate IsCandidate(c: Checker, surface: Surface, list: seq<string>, x: Candidate) {
    exists i | 0 <= i < |list| :: Outcome(c, surface, list[i]) == Some(x)
  }

  /** x is a maximum of the candidates under (verdict, then for violations sink match, then
      smaller CWE number). */
  ghost predicate IsBest(c: Checker, surface: Surface, list: seq<string>, x: Candidate) {
    && IsCandidate(c, surface, list, x)
    && forall y | IsCandidate(c, surface, list, y) :: !Replaces(y, x)
  }

  /** list[i] is the first CWE of the list that applies. */
  ghost predicate FirstCandidate(c: Checker, surface: Surface, list: seq<string>, i: nat) {
    && i < |list| && Outcome(c, surface, list[i]).Some?
    && forall h | 0 <= h < i :: Outcome(c, surface, list[h]) == None
  }

  ghost predicate Concludes(c: Checker, surface: Surface, list: seq<string>, r: Result) {
    && r.surface == surface
    && if exists x :: IsCandidate(c, surface, list, x)
       then && (exists x :: IsBest(c, surface, list, x) && r.verdict == x.verdict &&
                            r.cwe == if x.verdict == Safe then "" else x.cwe)
            && (r.verdict == Inconclusive ==>
                  forall i: nat | FirstCandidate(c, surface, list, i) :: r.cwe == list[i])
       else r.verdict == Inconclusive && r.cwe == if list == [] then "" else list[0]
  }

  /** What the loop holds after the CWEs of list: a best candidate, and of Inconclusive ones the
      first. */
  ghost predicate BestSoFar(c: Checker, surface: Surface, list: seq<string>, best: Option<Candidate>) {
    match best
    case None => forall h | 0 <= h < |list| :: Outcome(c, surface, list[h]) == None
    case Some(x) =>
      && IsBest(c, surface, list, x) && x.cwe in c.book
      && (x.verdict == Inconclusive ==> exists h: nat :: FirstCandidate(c, surface, list, h) && x.cwe == list[h])
  }

  lemma OneMoreCWE(c: Checker, surface: Surface, list: seq<string>, i: nat, best: Option<Candidate>)
    requires i < |list| && BestSoFar(c, surface, list[..i], best)
    ensures var x := Outcome(c, surface, list[i]);
      BestSoFar(c, surface, list[..i + 1],
                if x.Some? && (best == None || Replaces(x.value, best.value)) then x else best)
  {
    CandidatesOfPrefix(c, surface, list, i);
    assert list[..i + 1] == list[..i] + [list[i]];
    OutcomeNamesItsCWE(c, surface, list[i]);
    if best == None {
      if Outcome(c, surface, list[i]).Some? {
        assert FirstCandidate(c, surface, list[..i + 1], i);
      }
    } else if best.value.verdict == Inconclusive {
      var h: nat :| FirstCandidate(c, surface, list[..i], h) && best.value.cwe == list[..i][h];
      assert FirstCandidate(c, surface, list[..i + 1], h);
    }
  }

  lemma LoopConcludes(c: Checker, surface: Surface, list: seq<string>, best: Option<Candidate>)
    requires BestSoFar(c, surface, list, best)
    ensures Concludes(c, surface, list,
      if best == None then Result(surface, Inconclusive, if list == [] then "" else list[0])
      else Result(surface, best.value.verdict, if best.value.verdict == Safe then "" else best.value.cwe))
  {
    if best.Some? && best.value.verdict == Inconclusive {
      var h: nat :| FirstCandidate(c, surface, list, h) && best.value.cwe == list[h];
      forall i: nat | FirstCandidate(c, surface, list, i) ensures i == h {
      }
    }
  }

  /** The best-candidate loop over any list of applicable CWEs. */
  method CheckList(c: Checker, surface: Surface, list: seq<string>) returns (r: Result)
    requires c.Valid()
    ensures Concludes(c, surface, list, r)
    ensures r.verdict == Violation ==> r.cwe in c.book
  {
    var best: Option<Candidate> := None;
    var i := 0;
    while i < |list|
      invariant 0 <= i <= |list| && BestSoFar(c, surface, list[..i], best)
    {
      var candidate := CheckOne(c, surface, list[i]);
      OneMoreCWE(c, surface, list, i, best);
      if candidate.Some? && (best == None || Replaces(candidate.value, best.value)) {
        best := candidate;
      }
      i := i + 1;
    }
    assert list[..i] == list;
    LoopConcludes(c, surface, list, best);
    if best == None {
      return Result(surface, Inconclusive, if list == [] then "" else list[0]);
    }
    return Result(surface, best.value.verdict, if best.value.verdict == Safe then "" else best.value.cwe);
  }

  lemma CandidatesOfPrefix(c: Checker, surface: Surface, list: seq<string>, i: nat)
    requires i < |list|
    ensures forall x :: IsCandidate(c, surface, list[..i + 1], x)
                   <==> IsCandidate(c, surface, list[..i], x) || Outcome(c, surface, list[i]) == Some(x)
  {
    assert list[..i + 1] == list[..i] + [list[i]];
    forall x | IsCandidate(c, surface, list[..i], x) || Outcome(c, surface, list[i]) == Some(x)
      ensures IsCandidate(c, surface, list[..i + 1], x)
    {
      if Outcome(c, surface, list[i]) == Some(x) {
        assert list[..i + 1][i] == list[i];
      } else {
        var h :| 0 <= h < i && Outcome(c, surface, list[..i][h]) == Some(x);
        assert list[..i + 1][h] == list[..i][h];
      }
    }
  }

  method Check(c: Checker, surface: Surface) returns (r: Result)
    requires c.Valid()
    ensures Concludes(c, surface, ApplicableCWEs(surface.kind), r)
    ensures r.verdict == Violation ==> r.cwe in c.book
  {
    r := CheckList(c, surface, ApplicableCWEs(surface.kind));
  }

  /** The verdict, and the CWE unless the verdict is Inconclusive, do not depend on the order
      in which the applicable CWEs are tried. */
  lemma OrderDoesNotMatter(c: Checker, surface: Surface, list: seq<string>, other: seq<string>,
                           r: Result, r': Result)
    requires forall cwe :: cwe in list <==> cwe in other
    requires forall a, b | a in list && b in list && CweNumber(a) == CweNumber(b) :: a == b
    requires Concludes(c, surface, list, r) && Concludes(c, surface, other, r')
    ensures r.verdict == r'.verdict
    ensures r.verdict != Inconclusive ==> r == r'
  {
    SameCandidates(c, surface, list, other);
    if x: Candidate :| IsCandidate(c, surface, list, x) {
      var best := BestOf(c, surface, list, r);
      var best' := BestOf(c, surface, other, r');
      CandidateIsListed(c, surface, list, best);
      CandidateIsListed(c, surface, other, best');
      assert !Replaces(best', best) && !Replaces(best, best');
    }
  }

  lemma BestOf(c: Checker, surface: Surface, list: seq<string>, r: Result) returns (x: Candidate)
    requires Concludes(c, surface, list, r) && exists y :: IsCandidate(c, surface, list, y)
    ensures IsBest(c, surface, list, x) && r.verdict == x.verdict
    ensures r.cwe == if x.verdict == Safe then "" else x.cwe
  {
    x :| IsBest(c, surface, list, x) && r.verdict == x.verdict &&
         r.cwe == if x.verdict == Safe then "" else x.cwe;
  }

  lemma CandidateIsListed(c: Checker, surface: Surface, list: seq<string>, x: Candidate)
    requires IsCandidate(c, surface, list, x)
    ensures x.cwe in list
  {
  }

  lemma SameCandidates(c: Checker, surface: Surface, list: seq<string>, other: seq<string>)
    requires forall cwe :: cwe in list <==> cwe in other
    ensures forall x :: IsCandidate(c, surface, list, x) <==> IsCandidate(c, surface, other, x)
  {
    forall x | IsCandidate(c, surface, list, x) ensures IsCandidate(c, surface, other, x) {
      var i :| 0 <= i < |list| && Outcome(c, surface, list[i]) == Some(x);
      assert list[i] in other;
    }
    forall x | IsCandidate(c, surface, other, x) ensures IsCandidate(c, surface, list, x) {
      var i :| 0 <= i < |other| && Outcome(c, surface, other[i]) == Some(x);
      assert other[i] in list;
    }
  }

  lemma PermutationsHaveTheSameCWEs(list: seq<string>, other: seq<string>)
    requires multiset(list) == multiset(other)
    ensures forall cwe :: cwe in list <==> cwe in other
  {
    forall cwe ensures cwe in list <==> cwe in other {
      assert cwe in multiset(list) <==> cwe in multiset(other);
    }
  }

  /** A CWE identifier as the lists write it: digits without a leading zero. */
  predicate Named(cwe: string) {
    4 < |cwe| < 20 && cwe[0] == 'C' && cwe[1] == 'W' && cwe[2] == 'E' && cwe[3] == '-' && cwe[4] != '0'
    && forall i | 4 <= i < |cwe| :: '0' <= cwe[i] <= '9'
  }

  function Power10(n: nat): nat {
    if n == 0 then 1 else 10 * Power10(n - 1)
  }

  lemma {:induction false} DecimalRange(s: string)
    requires forall i | 0 <= i < |s| :: '0' <= s[i] <= '9'
    ensures Decimal(s) < Power10(|s|)
    ensures s != "" && s[0] != '0' ==> Decimal(s) > 0
  {
    if s != "" {
      DecimalRange(s[..|s| - 1]);
    }
  }

  lemma {:induction false} DecimalIsInjective(s: string, t: string)
    requires forall i | 0 <= i < |s| :: '0' <= s[i] <= '9'
    requires forall i | 0 <= i < |t| :: '0' <= t[i] <= '9'
    requires (s != "" ==> s[0] != '0') && (t != "" ==> t[0] != '0')
    requires Decimal(s) == Decimal(t)
    ensures s == t
  {
    DecimalRange(s);
    DecimalRange(t);
    if s != "" {
      var m, n := |s| - 1, |t| - 1;
      DecimalIsInjective(s[..m], t[..n]);
      assert s == s[..m] + [s[m]] && t == t[..n] + [t[n]];
    }
  }

  lemma {:induction false} Power10IsMonotone(n: nat, m: nat)
    requires n <= m
    ensures Power10(n) <= Power10(m)
    decreases m
  {
    if n < m {
      Power10IsMonotone(n, m - 1);
    }
  }

  lemma NumberOfNamed(cwe: string)
    requires Named(cwe)
    ensures CweNumber(cwe) == Decimal(cwe[4..])
  {
    assert cwe[..4] == "CWE-";
    DecimalRange(cwe[4..]);
    Power10IsMonotone(|cwe| - 4, 15);
    assert Power10(15) == 1_000_000_000_000_000;
  }

  lemma NamesDifferInNumber(a: string, b: string)
    requires Named(a) && Named(b) && CweNumber(a) == CweNumber(b)
    ensures a == b
  {
    NumberOfNamed(a);
    NumberOfNamed(b);
    DecimalIsInjective(a[4..], b[4..]);
    SameDigits(a, b);
  }

  lemma SameDigits(a: string, b: string)
    requires 4 < |a| && 4 < |b| && a[4..] == b[4..]
    requires a[0] == b[0] && a[1] == b[1] && a[2] == b[2] && a[3] == b[3]
    ensures a == b
  {
    assert |a[4..]| == |b[4..]|;
    forall i | 4 <= i < |a| ensures a[i] == b[i] {
      assert a[4..][i - 4] == b[4..][i - 4];
    }
  }

  lemma ApplicableAreNamed(kind: Kind)
    ensures forall cwe | cwe in ApplicableCWEs(kind) :: Named(cwe)
  {
  }

  /** The CWEs of the code's own lists have different numbers. */
  lemma ApplicableNumbersDiffer(kind: Kind)
    ensures forall a, b | a in ApplicableCWEs(kind) && b in ApplicableCWEs(kind) && CweNumber(a) == CweNumber(b) :: a == b
  {
    ApplicableAreNamed(kind);
    forall a, b | a in ApplicableCWEs(kind) && b in ApplicableCWEs(kind) && CweNumber(a) == CweNumber(b) ensures a == b {
      NamesDifferInNumber(a, b);
    }
  }

  /** But those lists are not in ascending order, although their documentation says so. */
  lemma ApplicableDescend(kind: Kind)
    requires kind.ExternalInput? || kind.AuthBoundary? || kind.IDORCandidate?
    ensures ApplicableCWEs(kind)[1] == "CWE-89" && ApplicableCWEs(kind)[2] == "CWE-78"
    ensures CweNumber("CWE-89") > CweNumber("CWE-78")
  {
    NumberOfNamed("CWE-89");
    NumberOfNamed("CWE-78");
    assert "CWE-89"[4..] == "89" && "CWE-78"[4..] == "78";
    assert "89"[..1] == "8" && "78"[..1] == "7";
  }

  /** In any order of the code's own list for the surface's kind, Check's verdict is the same, and
      so is its CWE unless the verdict is Inconclusive. */
  lemma CheckOrderDoesNotMatter(c: Checker, surface: Surface, other: seq<string>, r: Result, r': Result)
    requires multiset(other) == multiset(ApplicableCWEs(surface.kind))
    requires Concludes(c, surface, ApplicableCWEs(surface.kind), r) && Concludes(c, surface, other, r')
    ensures r.verdict == r'.verdict
    ensures r.verdict != Inconclusive ==> r == r'
  {
    PermutationsHaveTheSameCWEs(ApplicableCWEs(surface.kind), other);
    ApplicableNumbersDiffer(surface.kind);
    OrderDoesNotMatter(c, surface, ApplicableCWEs(surface.kind), other, r, r');
  }

  /** Without a call path and a sanitizer nothing is concluded but Inconclusive. */
  lemma NothingToGoBy(c: Checker, surface: Surface, cwe: string)
    requires surface.callPath == [] && !surface.sanitized
    ensures Outcome(c, surface, cwe).Some? ==> Outcome(c, surface, cwe).value.verdict == Inconclusive
  {
  }

  lemma FirstOfInconclusives(c: Checker, surface: Surface, list: seq<string>, r: Result)
    requires surface.callPath == [] && !surface.sanitized
    requires list != [] && Outcome(c, surface, list[0]).Some? && Concludes(c, surface, list, r)
    ensures r == Result(surface, Inconclusive, list[0])
  {
    assert IsCandidate(c, surface, list, Outcome(c, surface, list[0]).value);
    var x := BestOf(c, surface, list, r);
    CandidateApplies(c, surface, list, x);
    NothingToGoBy(c, surface, x.cwe);
    assert FirstCandidate(c, surface, list, 0);
  }

  lemma OpensFile(inv: Invariant, surface: Surface)
    requires "os.Open" in surface.sinkNodes && "os.Open" in inv.sinkAnchors
    ensures AnchoredBySink(inv, surface)
  {
    var a :| 0 <= a < |inv.sinkAnchors| && inv.sinkAnchors[a] == "os.Open";
    var n :| 0 <= n < |surface.sinkNodes| && surface.sinkNodes[n] == "os.Open";
    assert Text.At(surface.sinkNodes[n], inv.sinkAnchors[a], 0);
  }

  lemma RuleApplies(c: Checker, surface: Surface, cwe: string)
    requires cwe in c.book && (c.book[cwe].noSinkModel || AnchoredBySink(c.book[cwe], surface))
    ensures Outcome(c, surface, cwe).Some?
  {
  }

  /** An Inconclusive verdict's CWE does depend on the order: for an IDOR candidate that opens a
      file and has no call path, missing authorization and path traversal both defer, and the one
      tried first is reported. */
  lemma InconclusiveKeepsTheFirst(c: Checker, surface: Surface)
    requires surface.kind == IDORCandidate && surface.callPath == [] && !surface.sanitized
    requires "os.Open" in surface.sinkNodes
    requires "CWE-862" in c.book && c.book["CWE-862"].noSinkModel
    requires "CWE-22" in c.book && "os.Open" in c.book["CWE-22"].sinkAnchors
    ensures forall r | Concludes(c, surface, ApplicableCWEs(surface.kind), r) :: r == Result(surface, Inconclusive, "CWE-862")
    ensures forall r | Concludes(c, surface, PATHS_FIRST, r) :: r == Result(surface, Inconclusive, "CWE-22")
    ensures Permutes(ApplicableCWEs(surface.kind), PATHS_FIRST)
  {
    OpensFile(c.book["CWE-22"], surface);
    forall r | Concludes(c, surface, ApplicableCWEs(surface.kind), r) ensures r == Result(surface, Inconclusive, "CWE-862") {
      FirstRuleIsReported(c, surface, ApplicableCWEs(surface.kind), "CWE-862", r);
    }
    forall r | Concludes(c, surface, PATHS_FIRST, r) ensures r == Result(surface, Inconclusive, "CWE-22") {
      FirstRuleIsReported(c, surface, PATHS_FIRST, "CWE-22", r);
    }
  }

  /** An IDOR candidate's CWEs with path traversal first. */
  const PATHS_FIRST := ["CWE-22", "CWE-862", "CWE-89", "CWE-78"]

  lemma FirstRuleIsReported(c: Checker, surface: Surface, list: seq<string>, cwe: string, r: Result)
    requires surface.callPath == [] && !surface.sanitized
    requires cwe in c.book && (c.book[cwe].noSinkModel || AnchoredBySink(c.book[cwe], surface))
    requires list != [] && list[0] == cwe && Concludes(c, surface, list, r)
    ensures r == Result(surface, Inconclusive, cwe)
  {
    RuleApplies(c, surface, cwe);
    FirstOfInconclusives(c, surface, list, r);
  }

  predicate Permutes(list: seq<string>, other: seq<string>) {
    multiset(list) == multiset(other)
  }

  lemma MoveToFront(list: seq<string>, a: string) returns (other: seq<string>)
    requires a in list
    ensures Permutes(list, other) && other != [] && other[0] == a
  {
    var i :| 0 <= i < |list| && list[i] == a;
    other := [a] + list[..i] + list[i + 1..];
    assert list == list[..i] + [a] + list[i + 1..];
  }

  ghost predicate SameCWEs(list: seq<string>, other: seq<string>) {
    forall cwe :: cwe in list <==> cwe in other
  }

  /** A CWE that some order can report with an Inconclusive verdict: one that applies or, if none
      does, any of the list. */
  ghost predicate Contends(c: Checker, surface: Surface, list: seq<string>, cwe: string) {
    cwe in list && ((exists x :: IsCandidate(c, surface, list, x)) ==> Outcome(c, surface, cwe).Some?)
  }

  /** An Inconclusive result is the same for every order of the list exactly if only one CWE
      contends. */
  lemma InconclusiveIsIndependentExactlyWhen(c: Checker, surface: Surface, list: seq<string>, r: Result)
    requires list != [] && Concludes(c, surface, list, r) && r.verdict == Inconclusive
    ensures (forall other, r' | Permutes(list, other) && Concludes(c, surface, other, r') :: r' == r)
       <==> (forall a, b | Contends(c, surface, list, a) && Contends(c, surface, list, b) :: a == b)
  {
    ReportedContends(c, surface, list, list, r, r);
    if forall a, b | Contends(c, surface, list, a) && Contends(c, surface, list, b) :: a == b {
      forall other, r' | Permutes(list, other) && Concludes(c, surface, other, r') ensures r' == r {
        PermutationsHaveTheSameCWEs(list, other);
        ReportedContends(c, surface, list, other, r, r');
      }
    } else {
      var a :| Contends(c, surface, list, a) && a != r.cwe;
      var other := MoveToFront(list, a);
      FirstContenderIsReported(c, surface, list, other, r);
    }
  }

  lemma OutcomeNamesItsCWE(c: Checker, surface: Surface, cwe: string)
    ensures Outcome(c, surface, cwe).Some? ==> Outcome(c, surface, cwe).value.cwe == cwe && cwe in c.book
  {
  }

  lemma CandidateApplies(c: Checker, surface: Surface, list: seq<string>, x: Candidate)
    requires IsCandidate(c, surface, list, x)
    ensures x.cwe in list && Outcome(c, surface, x.cwe) == Some(x)
  {
    var i :| 0 <= i < |list| && Outcome(c, surface, list[i]) == Some(x);
    OutcomeNamesItsCWE(c, surface, list[i]);
  }

  /** With some order's verdict Inconclusive, every order's is, and it reports a contender. */
  lemma ReportedContends(c: Checker, surface: Surface, list: seq<string>, other: seq<string>, r': Result, r: Result)
    requires list != [] && SameCWEs(list, other) && Concludes(c, surface, other, r)
    requires Concludes(c, surface, list, r') && r'.verdict == Inconclusive
    ensures r.surface == surface && r.verdict == Inconclusive && Contends(c, surface, list, r.cwe)
  {
    SameCandidates(c, surface, list, other);
    if x: Candidate :| IsCandidate(c, surface, list, x) {
      var mine := BestOf(c, surface, other, r);
      var theirs := BestOf(c, surface, list, r');
      assert !Replaces(mine, theirs);
      CandidateApplies(c, surface, other, mine);
    } else {
      assert list[0] in other;
      assert other[0] in other;
    }
  }

  lemma ConcludesFirst(c: Checker, surface: Surface, list: seq<string>, x: Candidate)
    requires list != [] && Outcome(c, surface, list[0]) == Some(x) && x.cwe == list[0]
    requires IsBest(c, surface, list, x) && x.verdict == Inconclusive
    ensures Concludes(c, surface, list, Result(surface, Inconclusive, list[0]))
  {
    forall i: nat | FirstCandidate(c, surface, list, i) ensures i == 0 {
      assert Outcome(c, surface, list[0]).Some?;
    }
  }

  /** An order that begins with a contender has it reported. */
  lemma FirstContenderIsReported(c: Checker, surface: Surface, list: seq<string>, other: seq<string>, r: Result)
    requires Concludes(c, surface, list, r) && r.verdict == Inconclusive
    requires Permutes(list, other) && other != [] && Contends(c, surface, list, other[0])
    ensures Concludes(c, surface, other, Result(surface, Inconclusive, other[0]))
  {
    PermutationsHaveTheSameCWEs(list, other);
    SameCandidates(c, surface, list, other);
    if x: Candidate :| IsCandidate(c, surface, list, x) {
      var best := BestOf(c, surface, list, r);
      FirstIsBest(c, surface, list, other, best);
      ConcludesFirst(c, surface, other, Outcome(c, surface, other[0]).value);
    }
  }

  /** If all candidates are Inconclusive, the first of a list that applies is a best one. */
  lemma FirstIsBest(c: Checker, surface: Surface, list: seq<string>, other: seq<string>, best: Candidate)
    requires IsBest(c, surface, list, best) && best.verdict == Inconclusive
    requires forall x :: IsCandidate(c, surface, list, x) <==> IsCandidate(c, surface, other, x)
    requires other != [] && Outcome(c, surface, other[0]).Some?
    ensures var x := Outcome(c, surface, other[0]).value;
      IsBest(c, surface, other, x) && x.verdict == Inconclusive && x.cwe == other[0]
  {
    var x := Outcome(c, surface, other[0]).value;
    OutcomeNamesItsCWE(c, surface, other[0]);
    assert IsCandidate(c, surface, other, x);
    forall y | IsCandidate(c, surface, other, y) ensures y.verdict == Inconclusive {
      assert !Replaces(y, best);
    }
  }

  // ---- What the verdict means -------------------------------------------------------------------

  /** One of the anchors occurs in a sink that taint reaches or, unless it is about SQL, in the code. */
  ghost predicate IsAnchored(c: Checker, surface: Surface, cwe: string)
    requires cwe in c.book
  {
    exists anchor | anchor in c.book[cwe].sinkAnchors ::
      || (exists sink | sink in surface.sinkNodes :: Text.Contains(sink, anchor))
      || (cwe != "CWE-89" && surface.code != "" && Text.Contains(c.strip(surface.code), anchor))
  }

  ghost predicate IsAnchoredBySink(c: Checker, surface: Surface, cwe: string)
    requires cwe in c.book
  {
    exists anchor, sink | anchor in c.book[cwe].sinkAnchors && sink in surface.sinkNodes :: Text.Contains(sink, anchor)
  }

  /** The model's samples affirm that the code is safe; or, without a model, a safe node occurs in
      the call path or in the code. */
  ghost predicate IsVouchedFor(c: Checker, surface: Surface, cwe: string)
    requires cwe in c.book
  {
    match c.votes
    case Some(votes) => surface.code != "" && multiset(votes(cwe))[Yes] > multiset(votes(cwe))[No]
    case None =>
      exists safe | safe in c.book[cwe].safeNodes ::
        || (exists node | node in surface.callPath :: Text.Contains(node, safe))
        || Text.Contains(surface.code, safe)
  }

  ghost predicate Applies(c: Checker, surface: Surface, cwe: string) {
    cwe in c.book && (c.book[cwe].noSinkModel || IsAnchored(c, surface, cwe))
  }

  ghost predicate Violates(c: Checker, surface: Surface, cwe: string) {
    && cwe in c.book && !c.book[cwe].noSinkModel && IsAnchored(c, surface, cwe)
    && surface.callPath != [] && !surface.sanitized && !IsVouchedFor(c, surface, cwe)
  }

  ghost predicate Complies(c: Checker, surface: Surface, cwe: string) {
    && cwe in c.book
    && if c.book[cwe].noSinkModel then surface.sanitized
       else IsAnchored(c, surface, cwe) && surface.callPath != [] && (surface.sanitized || IsVouchedFor(c, surface, cwe))
  }

  lemma AnchoredMeans(c: Checker, surface: Surface, cwe: string)
    requires cwe in c.book
    ensures var inv := c.book[cwe];
      && (IsAnchoredBySink(c, surface, cwe) <==> AnchoredBySink(inv, surface))
      && (IsAnchored(c, surface, cwe) <==>
            || AnchoredBySink(inv, surface)
            || (surface.code != "" && cwe != "CWE-89" && AnchoredByText(inv, c.strip(surface.code))))
  {
    var inv := c.book[cwe];
    if AnchoredBySink(inv, surface) {
      var a, n :| 0 <= a < |inv.sinkAnchors| && 0 <= n < |surface.sinkNodes| &&
        Text.Contains(surface.sinkNodes[n], inv.sinkAnchors[a]);
      assert inv.sinkAnchors[a] in inv.sinkAnchors && surface.sinkNodes[n] in surface.sinkNodes;
    }
    if AnchoredByText(inv, c.strip(surface.code)) {
      var a :| 0 <= a < |inv.sinkAnchors| && Text.Contains(c.strip(surface.code), inv.sinkAnchors[a]);
      assert inv.sinkAnchors[a] in inv.sinkAnchors;
    }
  }

  lemma SafeNodeMeans(c: Checker, surface: Surface, cwe: string)
    requires cwe in c.book && c.votes == None
    ensures IsVouchedFor(c, surface, cwe) <==> HasSafeNode(c.book[cwe], surface)
  {
    var inv := c.book[cwe];
    if HasSafeNode(inv, surface) {
      if p, s :| 0 <= p < |surface.callPath| && 0 <= s < |inv.safeNodes| && Text.Contains(surface.callPath[p], inv.safeNodes[s]) {
        assert surface.callPath[p] in surface.callPath && inv.safeNodes[s] in inv.safeNodes;
      } else {
        var s :| 0 <= s < |inv.safeNodes| && Text.Contains(surface.code, inv.safeNodes[s]);
        assert inv.safeNodes[s] in inv.safeNodes;
      }
    }
  }

  /** The CWE is violated, and anchored by a sink if any violated one is; of these it has the
      smallest number. */
  ghost predicate IsPreferred(c: Checker, surface: Surface, list: seq<string>, best: string) {
    && Violates(c, surface, best)
    && forall cwe | cwe in list && Violates(c, surface, cwe) ::
         && (IsAnchoredBySink(c, surface, cwe) ==> IsAnchoredBySink(c, surface, best))
         && (IsAnchoredBySink(c, surface, best) == IsAnchoredBySink(c, surface, cwe) ==> CweNumber(best) <= CweNumber(cwe))
  }

  ghost predicate SomeViolated(c: Checker, surface: Surface, list: seq<string>) {
    exists cwe | cwe in list :: Violates(c, surface, cwe)
  }

  ghost predicate SomeComplied(c: Checker, surface: Surface, list: seq<string>) {
    exists cwe | cwe in list :: Complies(c, surface, cwe)
  }

  /** What is concluded about one CWE. */
  lemma OutcomeMeans(c: Checker, surface: Surface, cwe: string)
    ensures Outcome(c, surface, cwe).Some? <==> Applies(c, surface, cwe)
    ensures Outcome(c, surface, cwe).Some? ==>
      var x := Outcome(c, surface, cwe).value;
      && x.cwe == cwe
      && (x.verdict == Violation <==> Violates(c, surface, cwe))
      && (x.verdict == Safe <==> Complies(c, surface, cwe))
      && (x.verdict == Violation ==> (x.sinkMatched <==> IsAnchoredBySink(c, surface, cwe)))
  {
    if cwe in c.book {
      AnchoredMeans(c, surface, cwe);
      if c.votes == None {
        SafeNodeMeans(c, surface, cwe);
      }
    }
  }

  /** The verdict is Violation exactly if some CWE of the list is violated; Safe exactly if none is
      and the surface complies with one; a Violation is reported under a violated CWE, one anchored
      by a sink if there is any, of these the one with the smallest number. */
  lemma VerdictExactlyWhen(c: Checker, surface: Surface, list: seq<string>, r: Result)
    requires Concludes(c, surface, list, r)
    ensures r.verdict == Violation <==> SomeViolated(c, surface, list)
    ensures r.verdict == Safe <==> !SomeViolated(c, surface, list) && SomeComplied(c, surface, list)
    ensures surface.sanitized ==> r.verdict != Violation
    ensures r.verdict == Violation ==> r.cwe in list && IsPreferred(c, surface, list, r.cwe)
    ensures r.verdict == Safe ==> r.cwe == ""
  {
    if exists cwe | cwe in list :: Applies(c, surface, cwe) {
      var cwe :| cwe in list && Applies(c, surface, cwe);
      var y := CandidateOf(c, surface, list, cwe);
      var x := BestOf(c, surface, list, r);
      CandidateApplies(c, surface, list, x);
      OutcomeMeans(c, surface, x.cwe);
      forall other | other in list && Applies(c, surface, other)
        ensures Outcome(c, surface, other).Some? && !Replaces(Outcome(c, surface, other).value, x)
      {
        var z := CandidateOf(c, surface, list, other);
      }
      BestMeans(c, surface, list, x);
    } else {
      forall x | IsCandidate(c, surface, list, x) ensures false {
        NoCandidate(c, surface, list, x);
      }
    }
  }

  lemma NoCandidate(c: Checker, surface: Surface, list: seq<string>, x: Candidate)
    requires IsCandidate(c, surface, list, x)
    ensures x.cwe in list && Applies(c, surface, x.cwe)
  {
    CandidateApplies(c, surface, list, x);
    OutcomeMeans(c, surface, x.cwe);
  }

  lemma CandidateOf(c: Checker, surface: Surface, list: seq<string>, cwe: string) returns (x: Candidate)
    requires cwe in list && Applies(c, surface, cwe)
    ensures Outcome(c, surface, cwe) == Some(x) && IsCandidate(c, surface, list, x)
  {
    OutcomeMeans(c, surface, cwe);
    x := Outcome(c, surface, cwe).value;
    var i :| 0 <= i < |list| && list[i] == cwe;
  }

  lemma BestMeans(c: Checker, surface: Surface, list: seq<string>, x: Candidate)
    requires x.cwe in list && Outcome(c, surface, x.cwe) == Some(x)
    requires forall other | other in list && Applies(c, surface, other) ::
      Outcome(c, surface, other).Some? && !Replaces(Outcome(c, surface, other).value, x)
    ensures x.verdict == Violation <==> SomeViolated(c, surface, list)
    ensures x.verdict == Safe <==> !SomeViolated(c, surface, list) && SomeComplied(c, surface, list)
    ensures x.verdict == Violation ==> IsPreferred(c, surface, list, x.cwe)
  {
    OutcomeMeans(c, surface, x.cwe);
    forall cwe | cwe in list && Applies(c, surface, cwe)
      ensures var y := Outcome(c, surface, cwe).value;
        && (y.verdict == Violation <==> Violates(c, surface, cwe)) && (y.verdict == Safe <==> Complies(c, surface, cwe))
        && (y.verdict == Violation ==> (y.sinkMatched <==> IsAnchoredBySink(c, surface, cwe)))
        && y.cwe == cwe && !Replaces(y, x)
    {
      OutcomeMeans(c, surface, cwe);
    }
  }

  /** An Inconclusive verdict is reported under the first CWE of the list that applies; if none
      does, under the first one. */
  lemma InconclusiveUnder(c: Checker, surface: Surface, list: seq<string>, r: Result, i: nat)
    requires Concludes(c, surface, list, r) && r.verdict == Inconclusive
    requires i < |list| && Applies(c, surface, list[i]) && forall h | 0 <= h < i :: !Applies(c, surface, list[h])
    ensures r.cwe == list[i]
  {
    OutcomeMeans(c, surface, list[i]);
    forall h | 0 <= h < i ensures Outcome(c, surface, list[h]) == None {
      OutcomeMeans(c, surface, list[h]);
    }
    assert FirstCandidate(c, surface, list, i);
    assert IsCandidate(c, surface, list, Outcome(c, surface, list[i]).value);
  }

  lemma NothingApplies(c: Checker, surface: Surface, list: seq<string>, r: Result)
    requires Concludes(c, surface, list, r) && forall cwe | cwe in list :: !Applies(c, surface, cwe)
    ensures r == Result(surface, Inconclusive, if list == [] then "" else list[0])
  {
    forall x | IsCandidate(c, surface, list, x) ensures false {
      NoCandidate(c, surface, list, x);
    }
  }

  /** The CWEs tried for each kind of surface. */
  lemma TriedFor(kind: Kind, cwe: string)
    ensures cwe in ApplicableCWEs(kind) <==>
      match kind
      case ExternalInput => cwe in {"CWE-22", "CWE-78", "CWE-79", "CWE-89", "CWE-94", "CWE-502", "CWE-918"}
      case AuthBoundary => cwe in {"CWE-78", "CWE-89", "CWE-862"}
      case IDORCandidate => cwe in {"CWE-22", "CWE-78", "CWE-89", "CWE-862"}
      case DangerousSink => cwe == "CWE-327"
      case OtherKind => false
  {
  }
}
