/** The enriched attack surface that contracts, triage and the LLM reasoner pass along
    (internal/semantic/enrichment/enrichment.go). */
module Surfaces {

  datatype Kind = ExternalInput | AuthBoundary | IDORCandidate | DangerousSink | OtherKind

  datatype Surface = Surface(
    id: string,
    kind: Kind,
    file: string,
    line: int,
    code: string,
    sinkNodes: seq<string>,
    callPath: seq<string>,
    sanitized: bool,
    contractCWE: string,
    sinkLine: int,
    cvss: real)
}
