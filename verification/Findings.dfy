/** The vulnerability record that every pipeline stage exchanges, with the severity scale
    derived from its confidence (internal/finding/finding.go). */
module Findings {

  datatype Option<+T> = None | Some(value: T)

  /** Ordered from most to least severe, as the source's iota order. */
  datatype Severity = Block | High | Medium | Low | Suppressed
  {
    function Rank(): nat {
      match this
      case Block => 0
      case High => 1
      case Medium => 2
      case Low => 3
      case Suppressed => 4
    }
  }

  datatype SourcePath = Pattern | Semantic | Both

  datatype SSVC = SSVC(exploitation: string, automatable: string)

  /** The fields whose SHA-256 is the finding's ID; the hash is taken to be injective. */
  datatype FindingID = FindingID(cwe: string, path: string, line: int)

  /** start and end are the two ends of LineRange. Free-text fields that no decision reads
      (justification, summary, patch, PoE context) are not part of this model. */
  datatype Finding = Finding(
    id: FindingID,
    surfaceID: string,
    path: string,
    start: int,
    end: int,
    cwe: string,
    severity: Severity,
    confidence: real,
    sourcePath: SourcePath,
    suppressReason: string,
    matchedCode: string,
    cvss: real,
    ssvc: SSVC,
    taintMismatch: bool,
    exploitable: bool,
    pinned: bool)

  const CONF_BLOCK := 0.92
  const CONF_HIGH := 0.75
  const CONF_MEDIUM := 0.60
  const CONF_LOW := 0.30

  function SeverityFromConfidence(confidence: real): Severity {
    if confidence >= CONF_BLOCK then Block
    else if confidence >= CONF_HIGH then High
    else if confidence >= CONF_MEDIUM then Medium
    else if confidence >= CONF_LOW then Low
    else Suppressed
  }

  /** A label is at least as severe as another exactly when its confidence reaches every
      threshold the other one reaches. */
  lemma SeverityIsMonotone(low: real, high: real)
    requires low <= high
    ensures SeverityFromConfidence(high).Rank() <= SeverityFromConfidence(low).Rank()
  {
  }

  /** The tiers in numbers. */
  lemma SeverityScale(confidence: real)
    ensures SeverityFromConfidence(confidence) == Block <==> confidence >= 0.92
    ensures SeverityFromConfidence(confidence) == High <==> 0.75 <= confidence < 0.92
    ensures SeverityFromConfidence(confidence) == Medium <==> 0.60 <= confidence < 0.75
    ensures SeverityFromConfidence(confidence) == Low <==> 0.30 <= confidence < 0.60
  {
  }

  function Min(a: real, b: real): real {
    if a <= b then a else b
  }

  function Max(a: real, b: real): real {
    if a >= b then a else b
  }
}
