/** Confidence boosts and the severity derived from the boosted confidence
    (internal/dedup/dedup.go, internal/finding/finding.go). */
module Scoring {
  import opened Findings

  /** The configured block threshold, boosts and floor. */
  datatype Config = Config(confBlock: real, crossPath: real, ssvcActive: real, ssvcAutomatable: real, floorPattern: real)
  {
    predicate Valid() {
      0.0 <= confBlock <= 1.0 && 0.0 <= crossPath <= 1.0 && 0.0 <= ssvcActive <= 1.0 &&
      0.0 <= ssvcAutomatable <= 1.0 && 0.0 <= floorPattern <= 1.0
    }
  }

  const DEFAULT := Config(0.92, 0.15, 0.10, 0.05, 0.60)

  function CrossPathBoost(c: Config, path: SourcePath, confidence: real): real {
    if path == Both && confidence < c.confBlock then Min(confidence + c.crossPath, 1.0) else confidence
  }

  function CvssFloor(cvss: real, confidence: real): real {
    if cvss > 0.0 && cvss / 10.0 > confidence then cvss / 10.0 else confidence
  }

  function SsvcBoost(c: Config, ssvc: SSVC, confidence: real): real {
    var active := if ssvc.exploitation == "Active" then Min(confidence + c.ssvcActive, 1.0) else confidence;
    if ssvc.automatable == "Yes" then Min(active + c.ssvcAutomatable, 1.0) else active
  }

  function Boosted(c: Config, f: Finding, confidence: real): real {
    var floored := CvssFloor(f.cvss, CrossPathBoost(c, f.sourcePath, confidence));
    var boosted := if f.exploitable || f.sourcePath == Both then SsvcBoost(c, f.ssvc, floored) else floored;
    if f.sourcePath == Pattern && boosted < c.floorPattern then c.floorPattern else boosted
  }

  function Score(c: Config, f: Finding): Finding {
    var confidence := Boosted(c, f, f.confidence);
    f.(confidence := confidence, severity := if f.pinned then f.severity else SeverityFromConfidence(confidence))
  }

  /** The five adjustments in the code's order. */
  method ApplyBoostAndScore(c: Config, f: Finding) returns (out: Finding)
    ensures out == Score(c, f)
  {
    var confidence := f.confidence;
    if f.sourcePath == Both && confidence < c.confBlock {
      confidence := Min(confidence + c.crossPath, 1.0);
    }
    if f.cvss > 0.0 {
      var floor := f.cvss / 10.0;
      if floor > confidence {
        confidence := floor;
      }
    }
    if f.exploitable || f.sourcePath == Both {
      if f.ssvc.exploitation == "Active" {
        confidence := Min(confidence + c.ssvcActive, 1.0);
      }
      if f.ssvc.automatable == "Yes" {
        confidence := Min(confidence + c.ssvcAutomatable, 1.0);
      }
    }
    if f.sourcePath == Pattern && confidence < c.floorPattern {
      confidence := c.floorPattern;
    }
    out := f.(confidence := confidence);
    if !out.pinned {
      out := out.(severity := SeverityFromConfidence(confidence));
    }
  }

  predicate Admissible(f: Finding) {
    0.0 <= f.confidence <= 1.0 && 0.0 <= f.cvss <= 10.0
  }

  /** Scoring stays in [0, 1], never lowers a confidence, keeps pattern findings at the floor
      and changes nothing but the confidence and an unpinned severity. */
  lemma ScoreBounds(c: Config, f: Finding)
    requires c.Valid() && Admissible(f)
    ensures f.confidence <= Score(c, f).confidence <= 1.0
    ensures f.sourcePath == Pattern ==> Score(c, f).confidence >= c.floorPattern
    ensures f.pinned ==> Score(c, f) == f.(confidence := Score(c, f).confidence)
    ensures !f.pinned ==> Score(c, f).severity == SeverityFromConfidence(Score(c, f).confidence)
  {
  }

  /** What a finding is scored with: the boost for two paths below the block threshold, the CVSS
      floor, and the SSVC boosts of a finding that is exploitable or on both paths, each within 1;
      and a pattern finding at least the floor. An unpinned severity is the tier of that. */
  lemma ScoredExactly(c: Config, f: Finding)
    requires c.Valid() && Admissible(f)
    ensures Score(c, f) == f.(confidence := Score(c, f).confidence, severity := Score(c, f).severity)
    ensures Score(c, f).severity == if f.pinned then f.severity else SeverityFromConfidence(Score(c, f).confidence)
    ensures
      var cross := if f.sourcePath.Both? && f.confidence < c.confBlock then c.crossPath else 0.0;
      var active := if f.ssvc.exploitation == "Active" then c.ssvcActive else 0.0;
      var automatable := if f.ssvc.automatable == "Yes" then c.ssvcAutomatable else 0.0;
      var ssvc := if f.exploitable || f.sourcePath.Both? then active + automatable else 0.0;
      var floor := if f.sourcePath.Pattern? then c.floorPattern else 0.0;
      Score(c, f).confidence == Max(Min(Max(Min(f.confidence + cross, 1.0), f.cvss / 10.0) + ssvc, 1.0), floor)
  {
    SsvcIsOneSum(c, f.ssvc, CvssFloor(f.cvss, CrossPathBoost(c, f.sourcePath, f.confidence)));
  }

  /** The confidence itself is not monotone: just below the block threshold the cross-path
      boost overtakes the threshold. */
  lemma ConfidenceIsNotMonotone(f: Finding)
    requires f.sourcePath == Both && !f.exploitable && f.cvss == 0.0 && f.ssvc == SSVC("", "")
    ensures Score(DEFAULT, f.(confidence := 0.90)).confidence == 1.0
    ensures Score(DEFAULT, f.(confidence := 0.92)).confidence == 0.92
  {
  }

  ghost predicate ConfidenceMonotone(c: Config) {
    forall f, low, high | Admissible(f) && 0.0 <= low <= high <= 1.0 ::
      Score(c, f.(confidence := low)).confidence <= Score(c, f.(confidence := high)).confidence
  }

  /** It is monotone exactly if the cross-path boost cannot act or has no room to overtake. */
  lemma ConfidenceMonotoneExactlyWhen(c: Config)
    requires c.Valid()
    ensures ConfidenceMonotone(c) <==> c.crossPath == 0.0 || c.confBlock == 0.0 || c.confBlock == 1.0
  {
    if c.crossPath == 0.0 || c.confBlock == 0.0 || c.confBlock == 1.0 {
      forall f, low, high | Admissible(f) && 0.0 <= low <= high <= 1.0
        ensures Score(c, f.(confidence := low)).confidence <= Score(c, f.(confidence := high)).confidence
      {
        LaterBoostsAreMonotone(c, f, low, high);
      }
    } else {
      BoostOvertakes(c);
    }
  }

  lemma LaterBoostsAreMonotone(c: Config, f: Finding, low: real, high: real)
    requires c.Valid() && Admissible(f) && 0.0 <= low <= high <= 1.0
    requires CrossPathBoost(c, f.sourcePath, low) <= CrossPathBoost(c, f.sourcePath, high)
    ensures Boosted(c, f, low) <= Boosted(c, f, high)
  {
  }

  lemma BoostOvertakes(c: Config)
    requires c.Valid() && c.crossPath > 0.0 && 0.0 < c.confBlock < 1.0
    ensures !ConfidenceMonotone(c)
  {
    var f := Finding(FindingID("", "", 0), "", "", 0, 0, "", Low, 0.0, Both, "", "", 0.0, SSVC("", ""), false, false, false);
    var low := Max(c.confBlock - c.crossPath / 2.0, c.confBlock / 2.0);
    assert Boosted(c, f, low) > Boosted(c, f, c.confBlock);
    assert Score(c, f.(confidence := low)).confidence > Score(c, f.(confidence := c.confBlock)).confidence;
  }

  /** A higher input confidence, all else equal, never gives an unpinned finding a less severe
      tier. */
  ghost predicate TierMonotone(c: Config) {
    forall f, low, high | Admissible(f) && !f.pinned && 0.0 <= low <= high <= 1.0 ::
      Score(c, f.(confidence := high)).severity.Rank() <= Score(c, f.(confidence := low)).severity.Rank()
  }

  predicate IsTier(t: real) {
    t == CONF_BLOCK || t == CONF_HIGH || t == CONF_MEDIUM || t == CONF_LOW
  }

  /** Sums of the SSVC boosts a finding can collect. */
  predicate IsAddOn(c: Config, a: real) {
    a == 0.0 || a == c.ssvcActive || a == c.ssvcAutomatable || a == c.ssvcActive + c.ssvcAutomatable
  }

  /** Some tier threshold, seen through the SSVC boosts, lies strictly between the block
      threshold and the block threshold with the cross-path boost. */
  ghost predicate BoostCrossesTier(c: Config) {
    c.confBlock > 0.0 &&
    exists t, a :: IsTier(t) && IsAddOn(c, a) && c.confBlock + a < t < c.confBlock + c.crossPath + a
  }

  /** Exactly then the tier is monotone. */
  lemma TierMonotoneExactlyWhen(c: Config)
    requires c.Valid()
    ensures TierMonotone(c) <==> !BoostCrossesTier(c)
  {
    if BoostCrossesTier(c) {
      var t, a :| IsTier(t) && IsAddOn(c, a) && c.confBlock + a < t < c.confBlock + c.crossPath + a;
      CrossingBreaksMonotony(c, t, a);
    } else {
      forall f, low, high | Admissible(f) && !f.pinned && 0.0 <= low <= high <= 1.0
        ensures Score(c, f.(confidence := high)).severity.Rank() <= Score(c, f.(confidence := low)).severity.Rank()
      {
        NoCrossingKeepsTiers(c, f, low, high);
      }
    }
  }

  /** In particular with the block threshold at 0.92 or above, as by default. */
  lemma DefaultTiersAreMonotone(c: Config)
    requires c.Valid() && c.confBlock >= CONF_BLOCK
    ensures TierMonotone(c)
  {
    TierMonotoneExactlyWhen(c);
  }

  lemma NoCrossingKeepsTiers(c: Config, f: Finding, low: real, high: real)
    requires c.Valid() && Admissible(f) && !f.pinned && 0.0 <= low <= high <= 1.0
    requires !BoostCrossesTier(c)
    ensures Score(c, f.(confidence := high)).severity.Rank() <= Score(c, f.(confidence := low)).severity.Rank()
  {
    var x, y := Boosted(c, f, low), Boosted(c, f, high);
    assert Score(c, f.(confidence := low)).severity == SeverityFromConfidence(x);
    assert Score(c, f.(confidence := high)).severity == SeverityFromConfidence(y);
    if f.sourcePath == Both && low < c.confBlock <= high {
      var a := AddOn(c, f.ssvc);
      BoostedWithAddOn(c, f, low);
      BoostedWithAddOn(c, f, high);
      forall t | IsTier(t) ensures x >= t ==> y >= t {
        assert !(c.confBlock + a < t < c.confBlock + c.crossPath + a);
        BlockThresholdStep(c.confBlock, c.crossPath, f.cvss / 10.0, a, low, high, t);
      }
      TiersDecide(x, y);
    } else {
      SeverityIsMonotone(x, y);
    }
  }

  /** A value that reaches every tier the other one reaches is at least as severe. */
  lemma TiersDecide(x: real, y: real)
    requires forall t | IsTier(t) :: x >= t ==> y >= t
    ensures SeverityFromConfidence(y).Rank() <= SeverityFromConfidence(x).Rank()
  {
    assert IsTier(CONF_BLOCK) && IsTier(CONF_HIGH) && IsTier(CONF_MEDIUM) && IsTier(CONF_LOW);
  }

  function AddOn(c: Config, ssvc: SSVC): (a: real) {
    (if ssvc.exploitation == "Active" then c.ssvcActive else 0.0) +
    (if ssvc.automatable == "Yes" then c.ssvcAutomatable else 0.0)
  }

  /** The boosts of a finding on both paths, as one capped sum. */
  function CappedSum(block: real, cross: real, floor: real, a: real, confidence: real): real {
    Min(Max(Min(if confidence < block then confidence + cross else confidence, 1.0), floor) + a, 1.0)
  }

  lemma BoostedWithAddOn(c: Config, f: Finding, confidence: real)
    requires c.Valid() && Admissible(f) && f.sourcePath == Both && 0.0 <= confidence <= 1.0
    ensures Boosted(c, f, confidence) == CappedSum(c.confBlock, c.crossPath, f.cvss / 10.0, AddOn(c, f.ssvc), confidence)
    ensures IsAddOn(c, AddOn(c, f.ssvc))
  {
    var floored := CvssFloor(f.cvss, CrossPathBoost(c, f.sourcePath, confidence));
    SsvcIsOneSum(c, f.ssvc, floored);
  }

  lemma SsvcIsOneSum(c: Config, ssvc: SSVC, confidence: real)
    requires c.Valid() && confidence <= 1.0
    ensures SsvcBoost(c, ssvc, confidence) == Min(confidence + AddOn(c, ssvc), 1.0)
  {
  }

  lemma BlockThresholdStep(block: real, cross: real, floor: real, a: real, low: real, high: real, t: real)
    requires low < block <= high <= 1.0 && cross >= 0.0 && a >= 0.0 && IsTier(t)
    requires !(block + a < t < block + cross + a)
    ensures CappedSum(block, cross, floor, a, low) >= t ==> CappedSum(block, cross, floor, a, high) >= t
  {
  }

  lemma CrossingBreaksMonotony(c: Config, t: real, a: real)
    requires c.Valid() && c.confBlock > 0.0
    requires IsTier(t) && IsAddOn(c, a) && c.confBlock + a < t < c.confBlock + c.crossPath + a
    ensures !TierMonotone(c)
  {
    var ssvc := if a == 0.0 then SSVC("", "") else if a == c.ssvcActive then SSVC("Active", "")
                else if a == c.ssvcAutomatable then SSVC("", "Yes") else SSVC("Active", "Yes");
    assert AddOn(c, ssvc) == a;
    var f := Finding(FindingID("", "", 0), "", "", 0, 0, "", Low, 0.0, Both, "", "", 0.0, ssvc, false, false, false);
    var low := Max(t - c.crossPath - a, 0.0);
    BoostedWithAddOn(c, f, low);
    BoostedWithAddOn(c, f, c.confBlock);
    var x, y := Boosted(c, f, low), Boosted(c, f, c.confBlock);
    assert Score(c, f.(confidence := low)).severity == SeverityFromConfidence(x);
    assert Score(c, f.(confidence := c.confBlock)).severity == SeverityFromConfidence(y);
    CrossingSeparates(c.confBlock, c.crossPath, a, low, t);
    assert SeverityFromConfidence(y).Rank() > SeverityFromConfidence(x).Rank();
  }

  lemma CrossingSeparates(block: real, cross: real, a: real, low: real, t: real)
    requires 0.0 < block && 0.0 <= cross && 0.0 <= a && IsTier(t)
    requires block + a < t < block + cross + a && low == Max(t - cross - a, 0.0)
    ensures low < block && CappedSum(block, cross, 0.0, a, low) >= t > CappedSum(block, cross, 0.0, a, block)
  {
  }
}
