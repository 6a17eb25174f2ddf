/** The code window around a sink and its rendering with line numbers
    (internal/pipeline/reasoning.go, internal/report/report.go). */
module SinkContext {
  import opened Findings
  import opened Surfaces
  import Text

  const VIOLATION_CONTEXT := 5
  const FALLBACK_LINES := 20

  /** The part of a sink label after its last dot. */
  function SinkName(sink: string): string
    decreases |sink|
  {
    if exists i | 0 <= i < |sink| :: sink[i] == '.' then SinkName(sink[1..]) else sink
  }

  predicate Mentions(line: string, sinkNodes: seq<string>) {
    exists j | 0 <= j < |sinkNodes| :: MentionsSink(line, sinkNodes[j])
  }

  predicate MentionsSink(line: string, sink: string) {
    sink != "" && SinkName(sink) != "" && Text.Contains(line, SinkName(sink))
  }

  /** Line k of the body is the first that names a sink. */
  predicate FirstMention(lines: seq<string>, sinkNodes: seq<string>, k: nat) {
    && k < |lines| && Mentions(lines[k], sinkNodes)
    && forall i | 0 <= i < k :: !Mentions(lines[i], sinkNodes)
  }

  function WindowStart(k: nat, context: nat): nat {
    if k < context then 0 else k - context
  }

  function WindowEnd(k: nat, context: nat, n: nat): nat {
    if k + context + 1 > n then n else k + context + 1
  }

  method SinkContextLines(body: string, funcStart: int, sinkNodes: seq<string>, context: nat)
    returns (snippet: string, start: int, sinkLine: int)
    ensures body == "" || sinkNodes == [] || funcStart <= 0 ==>
      snippet == "" && start == sinkLine == funcStart
    ensures body != "" && sinkNodes != [] && funcStart > 0 ==>
      var lines := Text.Split(body);
      && (forall k: nat | FirstMention(lines, sinkNodes, k) ::
            && snippet == Text.Join(lines[WindowStart(k, context)..WindowEnd(k, context, |lines|)])
            && start == funcStart + WindowStart(k, context)
            && sinkLine == funcStart + k)
      && ((forall i | 0 <= i < |lines| :: !Mentions(lines[i], sinkNodes)) ==>
            && snippet == Text.Join(if |lines| > FALLBACK_LINES then lines[..FALLBACK_LINES] else lines)
            && start == sinkLine == funcStart)
  {
    if body == "" || sinkNodes == [] || funcStart <= 0 {
      return "", funcStart, funcStart;
    }
    var lines := Text.Split(body);
    var i := 0;
    while i < |lines|
      invariant 0 <= i <= |lines|
      invariant forall h | 0 <= h < i :: !Mentions(lines[h], sinkNodes)
    {
      if exists j | 0 <= j < |sinkNodes| :: MentionsSink(lines[i], sinkNodes[j]) {
        var lo := if i < context then 0 else i - context;
        var hi := if i + context + 1 > |lines| then |lines| else i + context + 1;
        return Text.Join(lines[lo..hi]), funcStart + lo, funcStart + i;
      }
      i := i + 1;
    }
    var end := if |lines| > FALLBACK_LINES then FALLBACK_LINES else |lines|;
    assert lines[..|lines|] == lines;
    return Text.Join(lines[..end]), funcStart, funcStart;
  }

  datatype CodeLine = CodeLine(number: int, content: string, highlight: bool)

  /** The report's numbered listing of a snippet. */
  method CodeLines(code: string, startLine: int, sinkLine: int) returns (out: seq<CodeLine>)
    ensures out == Listing(code, startLine, sinkLine)
  {
    var start := if startLine <= 0 then 1 else startLine;
    var raw := Text.Split(Text.TrimNewlines(code));
    out := [];
    var i := 0;
    while i < |raw|
      invariant 0 <= i <= |raw|
      invariant |out| == i
      invariant forall h | 0 <= h < i :: out[h] == Listing(code, startLine, sinkLine)[h]
    {
      var absLine := start + i;
      var highlight := if sinkLine > 0 && sinkLine >= start then absLine == sinkLine else i == |raw| - 1;
      out := out + [CodeLine(absLine, raw[i], highlight)];
      i := i + 1;
    }
  }

  function Listing(code: string, startLine: int, sinkLine: int): (out: seq<CodeLine>) {
    var start := if startLine <= 0 then 1 else startLine;
    var raw := Text.Split(Text.TrimNewlines(code));
    seq(|raw|, i requires 0 <= i < |raw| =>
      CodeLine(start + i, raw[i],
               if sinkLine > 0 && sinkLine >= start then start + i == sinkLine else i == |raw| - 1))
  }

  /** f is the finding of a surface that violates the CWE: medium severity, located by the window
      around its first line that names a sink; without one, by the first 20 lines; and without a
      body, sinks or a line by the sinks' labels. */
  ghost predicate IsFiled(f: Finding, surface: Surface, cwe: string) {
    && f.surfaceID == surface.id && f.cwe == cwe && f.severity == Medium && f.confidence == 0.65
    && !f.pinned && !f.exploitable && !f.taintMismatch && f.sourcePath == Semantic && f.suppressReason == ""
    && f.path == surface.file && f.cvss == surface.cvss && f.ssvc == SSVC("", "")
    && f.id == FindingID(cwe, surface.file, f.start)
    && if surface.code == "" || surface.sinkNodes == [] || surface.line <= 0
       then f.matchedCode == JoinLabels(surface.sinkNodes) && f.start == f.end == surface.line
       else
         var lines := Text.Split(surface.code);
         && (forall k: nat | FirstMention(lines, surface.sinkNodes, k) :: Locates(f, surface, k))
         && ((forall i | 0 <= i < |lines| :: !Mentions(lines[i], surface.sinkNodes)) ==>
               && f.matchedCode == Text.Join(if |lines| > 20 then lines[..20] else lines)
               && f.start == f.end == surface.line)
  }

  method ViolationToFinding(surface: Surface, cwe: string) returns (f: Finding)
    ensures IsFiled(f, surface, cwe)
  {
    var code, start, sinkLine := SinkContextLines(surface.code, surface.line, surface.sinkNodes, VIOLATION_CONTEXT);
    SnippetIsNotBlank(surface, code);
    if code == "" {
      code, start, sinkLine := JoinLabels(surface.sinkNodes), surface.line, surface.line;
    }
    f := Finding(FindingID(cwe, surface.file, start), surface.id, surface.file, start, sinkLine, cwe, Medium,
                 0.65, Semantic, "", code, surface.cvss, SSVC("", ""), false, false, false);
  }

  /** Where there is a body to search, a snippet is found. */
  lemma SnippetIsNotBlank(surface: Surface, snippet: string)
    requires surface.code != "" && surface.sinkNodes != [] && surface.line > 0 ==>
      var lines := Text.Split(surface.code);
      && (forall k: nat | FirstMention(lines, surface.sinkNodes, k) ::
            snippet == Text.Join(lines[WindowStart(k, VIOLATION_CONTEXT)..WindowEnd(k, VIOLATION_CONTEXT, |lines|)]))
      && ((forall i | 0 <= i < |lines| :: !Mentions(lines[i], surface.sinkNodes)) ==>
            snippet == Text.Join(if |lines| > FALLBACK_LINES then lines[..FALLBACK_LINES] else lines))
    ensures surface.code != "" && surface.sinkNodes != [] && surface.line > 0 ==> snippet != ""
  {
    if surface.code != "" && surface.sinkNodes != [] && surface.line > 0 {
      var lines := Text.Split(surface.code);
      var first := FirstOrNone(lines, surface.sinkNodes);
      if first < |lines| {
        WindowIsNotBlank(lines, surface.sinkNodes, first, VIOLATION_CONTEXT);
      } else {
        HeadIsNotBlank(surface.code, FALLBACK_LINES);
      }
    }
  }

  /** The first line that names a sink, or the number of lines. */
  lemma FirstOrNone(lines: seq<string>, sinkNodes: seq<string>) returns (k: nat)
    ensures k <= |lines| && forall i | 0 <= i < k :: !Mentions(lines[i], sinkNodes)
    ensures k < |lines| ==> FirstMention(lines, sinkNodes, k)
  {
    k := 0;
    while k < |lines| && !Mentions(lines[k], sinkNodes)
      invariant k <= |lines| && forall i | 0 <= i < k :: !Mentions(lines[i], sinkNodes)
    {
      k := k + 1;
    }
  }

  lemma HeadIsNotBlank(code: string, n: nat)
    requires code != "" && n > 1
    ensures var lines := Text.Split(code); Text.Join(if |lines| > n then lines[..n] else lines) != ""
  {
    Text.JoinSplit(code);
  }

  /** The window are the lines at most five away from the sink's. */
  lemma WindowIsFiveAround(f: Finding, surface: Surface, k: nat)
    requires k < |Text.Split(surface.code)| && Locates(f, surface, k)
    ensures var lines := Text.Split(surface.code);
      && f.start == surface.line + (if k <= 5 then 0 else k - 5) && f.end == surface.line + k
      && f.matchedCode == Text.Join(lines[if k <= 5 then 0 else k - 5..if k + 6 > |lines| then |lines| else k + 6])
  {
  }

  /** A sink's name is what follows its last dot. */
  lemma {:induction false} SinkNameIsBehindTheDot(qualifier: string, name: string)
    requires '.' !in name
    ensures SinkName(name) == name && SinkName(qualifier + "." + name) == name
    decreases |qualifier|
  {
    var sink := qualifier + "." + name;
    assert sink[|qualifier|] == '.';
    if qualifier == "" {
      assert sink[1..] == name;
    } else {
      SinkNameIsBehindTheDot(qualifier[1..], name);
      assert sink[1..] == qualifier[1..] + "." + name;
    }
  }

  /** f's snippet and line range are the window around line k of the surface's body. */
  predicate Locates(f: Finding, surface: Surface, k: nat)
    requires k < |Text.Split(surface.code)|
  {
    var lines := Text.Split(surface.code);
    && f.matchedCode == Text.Join(lines[WindowStart(k, VIOLATION_CONTEXT)..WindowEnd(k, VIOLATION_CONTEXT, |lines|)])
    && f.start == surface.line + WindowStart(k, VIOLATION_CONTEXT)
    && f.end == surface.line + k
  }

  function JoinLabels(labels: seq<string>): string {
    if |labels| == 0 then "" else if |labels| == 1 then labels[0] else labels[0] + ", " + JoinLabels(labels[1..])
  }

  lemma MentionIsNotBlank(line: string, sinkNodes: seq<string>)
    requires Mentions(line, sinkNodes)
    ensures line != "" && sinkNodes != []
  {
  }

  lemma WindowIsNotBlank(lines: seq<string>, sinkNodes: seq<string>, k: nat, context: nat)
    requires FirstMention(lines, sinkNodes, k)
    ensures Text.Join(lines[WindowStart(k, context)..WindowEnd(k, context, |lines|)]) != ""
    ensures sinkNodes != [] && lines != [""]
  {
    MentionIsNotBlank(lines[k], sinkNodes);
    var window := lines[WindowStart(k, context)..WindowEnd(k, context, |lines|)];
    assert window[k - WindowStart(k, context)] != "";
    JoinHasLine(window, k - WindowStart(k, context));
  }

  lemma {:induction false} JoinHasLine(lines: seq<string>, k: nat)
    requires k < |lines| && lines[k] != ""
    ensures Text.Join(lines) != ""
  {
    if k > 0 {
      JoinHasLine(lines[1..], k - 1);
    }
  }

  /** The report counts the lines of a violation's snippet from the surface's line on, as if the
      body began there, and highlights exactly one line: the first line of the body that names a
      sink. */
  lemma ReportHighlightsTheSink(f: Finding, surface: Surface, k: nat)
    requires surface.line > 0
    requires FirstMention(Text.Split(surface.code), surface.sinkNodes, k) && Locates(f, surface, k)
    ensures var lines, out := Text.Split(surface.code), Listing(f.matchedCode, f.start, f.end);
      && (forall i | 0 <= i < |out| ::
            && 0 <= out[i].number - surface.line < |lines|
            && out[i].content == lines[out[i].number - surface.line]
            && (out[i].highlight <==> out[i].number == surface.line + k))
      && exists i | 0 <= i < |out| :: out[i].number == surface.line + k
  {
    var lines := Text.Split(surface.code);
    var lo, kept := SnippetLines(f, surface, k);
    ListingOfLines(f, surface, k, lines, lo, kept);
    NumbersFindLines(Listing(f.matchedCode, f.start, f.end), lines, surface.line, lo, kept, k);
  }

  lemma NumbersFindLines(out: seq<CodeLine>, lines: seq<string>, base: int, lo: nat, kept: nat, k: nat)
    requires lo <= k < lo + kept <= |lines| && |out| == kept
    requires forall i | 0 <= i < kept :: out[i] == CodeLine(base + lo + i, lines[lo + i], lo + i == k)
    ensures forall i | 0 <= i < |out| ::
      && 0 <= out[i].number - base < |lines|
      && out[i].content == lines[out[i].number - base]
      && (out[i].highlight <==> out[i].number == base + k)
    ensures exists i | 0 <= i < |out| :: out[i].number == base + k
  {
    assert out[k - lo].number == base + k;
  }

  /** Trimming the snippet for display keeps a run of body lines that includes the sink line. */
  lemma SnippetLines(f: Finding, surface: Surface, k: nat) returns (lo: nat, kept: nat)
    requires FirstMention(Text.Split(surface.code), surface.sinkNodes, k) && Locates(f, surface, k)
    ensures lo <= k < lo + kept <= |Text.Split(surface.code)| && f.start == surface.line + lo
    ensures Text.Split(Text.TrimNewlines(f.matchedCode)) == Text.Split(surface.code)[lo..lo + kept]
  {
    var lines := Text.Split(surface.code);
    lo := WindowStart(k, VIOLATION_CONTEXT);
    var window := lines[lo..WindowEnd(k, VIOLATION_CONTEXT, |lines|)];
    MentionIsNotBlank(lines[k], surface.sinkNodes);
    Text.SplitGivesSingleLines(surface.code);
    assert lo <= k < lo + |window| && window[k - lo] == lines[k];
    SingleWindow(lines, lo, WindowEnd(k, VIOLATION_CONTEXT, |lines|));
    kept := Text.TrimKeepsLine(window, k - lo);
    WindowPrefix(lines, lo, WindowEnd(k, VIOLATION_CONTEXT, |lines|), kept);
  }

  lemma SingleWindow(lines: seq<string>, lo: nat, hi: nat)
    requires Text.SingleLines(lines) && lo <= hi <= |lines|
    ensures Text.SingleLines(lines[lo..hi])
  {
    forall i | 0 <= i < hi - lo ensures '\n' !in lines[lo..hi][i] {
      assert lines[lo..hi][i] == lines[lo + i];
    }
  }

  lemma WindowPrefix(lines: seq<string>, lo: nat, hi: nat, kept: nat)
    requires lo <= hi <= |lines| && kept <= hi - lo
    ensures lines[lo..hi][..kept] == lines[lo..lo + kept]
  {
  }

  lemma ListingOfLines(f: Finding, surface: Surface, k: nat, lines: seq<string>, lo: nat, kept: nat)
    requires surface.line > 0 && lo <= k && lo + kept <= |lines|
    requires f.start == surface.line + lo && f.end == surface.line + k
    requires Text.Split(Text.TrimNewlines(f.matchedCode)) == lines[lo..lo + kept]
    ensures var out := Listing(f.matchedCode, f.start, f.end);
      && |out| == kept
      && forall i | 0 <= i < kept :: out[i] == CodeLine(surface.line + lo + i, lines[lo + i], lo + i == k)
  {
  }
}
