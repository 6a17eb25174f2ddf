/** The report's line numbers for a violation against the lines of its source file
    (internal/semantic/enrichment/enrichment.go, internal/pipeline/reasoning.go, internal/report/report.go). */
module ReportLines {
  import opened BodyLines
  import opened Findings
  import opened FunctionBody
  import opened SinkContext
  import opened Surfaces
  import opened Text

  /** The listing shows the body's lines from line `skipped` on. */
  predicate ListsBody(out: seq<CodeLine>, body: seq<string>, skipped: nat) {
    skipped + |out| <= |body| && forall i | 0 <= i < |out| :: out[i].content == body[skipped + i]
  }

  /** The listed lines have the numbers that the file's lines from index `from` on have. */
  predicate NumberedFrom(out: seq<CodeLine>, from: nat) {
    forall i | 0 <= i < |out| :: out[i].number == from + i + 1
  }

  /** Each of them is too large by `shift`. */
  predicate ShiftedFrom(out: seq<CodeLine>, from: nat, shift: int) {
    forall i | 0 <= i < |out| :: out[i].number == from + i + 1 + shift
  }

  /** A violation's listing shows consecutive lines of the file, with the sink's line highlighted.
      They are numbered as in the file exactly if the body begins on the surface's line. */
  lemma ReportFollowsFileExactlyWhen(file: seq<string>, start: nat, name: string, origin: Origin,
                                     f: Finding, surface: Surface, k: nat)
    returns (at: nat, skipped: nat)
    requires SingleLines(file) && start < |file| && TakenFrom(file, start, name, origin, surface.code)
    requires surface.line > 0
    requires FirstMention(Split(surface.code), surface.sinkNodes, k) && Locates(f, surface, k)
    ensures Shows(file, origin, at, Split(surface.code))
    ensures var out := Listing(f.matchedCode, f.start, f.end);
      && ListsBody(out, Split(surface.code), skipped)
      && skipped <= k < skipped + |out| && out[k - skipped].highlight
      && ShiftedFrom(out, at + skipped, surface.line - (at + 1))
      && (NumberedFrom(out, at + skipped) <==> surface.line == at + 1)
  {
    at := BodyShowsFileLines(file, start, name, origin, surface.code);
    var lo, kept := SnippetLines(f, surface, k);
    ListingOfLines(f, surface, k, Split(surface.code), lo, kept);
    skipped := lo;
    assert Listing(f.matchedCode, f.start, f.end)[k - lo].number == surface.line + k;
  }

  /** When the body was read at the surface's own line, they are numbered as in the file exactly
      if that line is within the file and is that of the signature; or, where no body was opened,
      is not blank. */
  lemma ReportIsRightExactlyWhen(file: seq<string>, start: nat, name: string, origin: Origin,
                                 f: Finding, surface: Surface, k: nat)
    returns (at: nat, skipped: nat)
    requires SingleLines(file) && start < |file| && TakenFrom(file, start, name, origin, surface.code)
    requires surface.line > 0 && (surface.line <= |file| ==> start == surface.line - 1)
    requires FirstMention(Split(surface.code), surface.sinkNodes, k) && Locates(f, surface, k)
    ensures Shows(file, origin, at, Split(surface.code))
    ensures var out := Listing(f.matchedCode, f.start, f.end);
      && ListsBody(out, Split(surface.code), skipped)
      && skipped <= k < skipped + |out| && out[k - skipped].highlight
      && (NumberedFrom(out, at + skipped) <==> surface.line <= |file| && BeginsOnStart(file, start, origin))
  {
    at, skipped := ReportFollowsFileExactlyWhen(file, start, name, origin, f, surface, k);
    BeginsOnStartExactlyWhen(file, start, name, origin, surface.code, at);
    assert at < |file|;
  }

  /** A line that opens a body under a line that can begin a signature, such as an annotation, is
      read from that line on: a report for the given line numbers every line one too high. */
  lemma AnnotationAboveShifts(file: seq<string>, start: nat, name: string, origin: Origin,
                              f: Finding, surface: Surface, k: nat)
    returns (at: nat, skipped: nat)
    requires SingleLines(file) && start < |file| && TakenFrom(file, start, name, origin, surface.code)
    requires origin.BraceRun? && origin.open == start && start > 0 && BeginsSignature(file[start - 1])
    requires surface.line == start + 1
    requires FirstMention(Split(surface.code), surface.sinkNodes, k) && Locates(f, surface, k)
    ensures var out := Listing(f.matchedCode, f.start, f.end);
      && ListsBody(out, Split(surface.code), skipped)
      && skipped <= k < skipped + |out| && out[k - skipped].highlight
      && at == start - 1 && ShiftedFrom(out, at + skipped, 1)
  {
    at, skipped := ReportFollowsFileExactlyWhen(file, start, name, origin, f, surface, k);
  }

  /** A given line that closes the method before is not read: every number is too low. */
  lemma ClosingBraceAboveShifts(file: seq<string>, start: nat, name: string, origin: Origin,
                                f: Finding, surface: Surface, k: nat)
    returns (at: nat, skipped: nat)
    requires SingleLines(file) && start < |file| && TakenFrom(file, start, name, origin, surface.code)
    requires origin.BraceRun? && start < origin.open && Boundary(file[start]) && !BeginsSignature(file[start])
    requires surface.line == start + 1
    requires FirstMention(Split(surface.code), surface.sinkNodes, k) && Locates(f, surface, k)
    ensures var out := Listing(f.matchedCode, f.start, f.end);
      && ListsBody(out, Split(surface.code), skipped)
      && skipped <= k < skipped + |out| && out[k - skipped].highlight
      && at > start && ShiftedFrom(out, at + skipped, start - at)
  {
    at, skipped := ReportFollowsFileExactlyWhen(file, start, name, origin, f, surface, k);
  }

  // ---- An annotated method ----------------------------------------------------------------------

  lemma AtGives(s: string, p: string, i: int, j: nat)
    requires At(s, p, i) && j < |p|
    ensures s[i + j] == p[j]
  {
    assert s[i..i + |p|][j] == s[i + j];
  }

  lemma NoClass(line: string)
    requires forall i | 0 <= i < |line| - 1 && line[i] == ' ' :: line[i + 1] !in {'c', 'i', 'e', '@'}
    ensures !ClassLike(line)
  {
    forall i, p | At(line, p, i) && p in {" class ", " interface ", " enum ", " @interface "} ensures false {
      AtGives(line, p, i, 0);
      AtGives(line, p, i, 1);
    }
  }

  lemma StripPlain(line: string)
    requires '"' !in line && '/' !in line
    ensures Strip(line) == line
  {
    forall j | 0 <= j <= |line| ensures !At(line, "//", j) {
      if At(line, "//", j) {
        AtGives(line, "//", j, 0);
      }
    }
    IndexOfAbsent(line, "//");
    StripCode(line, "");
    assert line + "" == line;
  }

  lemma TrimmedStays(s: string)
    requires Trimmed(s)
    ensures TrimSpace(s) == s
  {
  }

  /** A line of plain characters that ends with its only brace. */
  lemma PlainOpening(head: string, i: nat)
    requires i < |head| && head[i] == ')' && !Space(head[0])
    requires '"' !in head && '/' !in head && '{' !in head && '}' !in head
    ensures OpensBody(head + "{") && Strip(head + "{") == TrimSpace(head + "{") == head + "{"
  {
    var line := head + "{";
    StripPlain(line);
    TrimmedStays(line);
    assert line[i..i + 1] == ")" && At(line, ")", i);
    assert HasSuffix(line, "{");
  }

  lemma OneBrace(head: string)
    requires '{' !in head && '}' !in head
    ensures Braces(head + "{") == 1
  {
    BracesAreExcess(head + "{");
    assert multiset(head + "{") == multiset(head) + multiset{'{'};
  }

  lemma AnnotationLine(note: string)
    requires note == "@Get"
    ensures BeginsSignature(note)
  {
    TrimmedStays(note);
    NoClass(note);
  }

  lemma OpeningLine(opening: string)
    requires opening == "void f() {"
    ensures OpensBody(opening) && !ClassLike(TrimSpace(opening)) && Braces(Strip(opening)) == 1
  {
    var head := opening[..9];
    assert head == "void f() " && opening == head + "{";
    PlainOpening(head, 7);
    OneBrace(head);
    NoClass(opening);
  }

  lemma NoMention(line: string, sinkNodes: seq<string>)
    requires sinkNodes == ["exec"] && forall i | 0 < i < |line| :: line[i] != 'x'
    ensures !Mentions(line, sinkNodes)
  {
    assert SinkName(sinkNodes[0]) == "exec";
    forall i | At(line, "exec", i) ensures false {
      AtGives(line, "exec", i, 1);
    }
  }

  lemma FirstCall(line: string, sinkNodes: seq<string>)
    requires sinkNodes == ["exec"] && HasPrefix(line, "exec")
    ensures Mentions(line, sinkNodes)
  {
    assert SinkName(sinkNodes[0]) == "exec";
    assert At(line, "exec", 0);
    assert MentionsSink(line, sinkNodes[0]);
  }

  predicate ThirdMentions(file: seq<string>, sinkNodes: seq<string>)
    requires |file| > 2
  {
    !Mentions(file[0], sinkNodes) && !Mentions(file[1], sinkNodes) && Mentions(file[2], sinkNodes)
  }

  lemma ThirdCalls(file: seq<string>, sinkNodes: seq<string>)
    requires file == ["@Get", "void f() {", "exec();", "}"] && sinkNodes == ["exec"]
    ensures ThirdMentions(file, sinkNodes)
  {
    NoMention(file[0], sinkNodes);
    NoMention(file[1], sinkNodes);
    FirstCall(file[2], sinkNodes);
  }

  predicate OpensAnnotated(note: string, opening: string) {
    && BeginsSignature(note)
    && OpensBody(opening) && !ClassLike(TrimSpace(opening)) && Braces(Strip(opening)) > 0
  }

  predicate FewPlainLines(file: seq<string>) {
    && |file| > 2 && SingleLines(file) && |file[0]| + |file[1]| + 2 < MAX_BODY
    && Trimmed(file[0]) && Trimmed(file[1]) && Trimmed(file[2])
  }

  /** A file that begins with a method of at least one line, the first to name a sink, under an
      annotation. */
  predicate BeginsAnnotated(file: seq<string>, sinkNodes: seq<string>) {
    FewPlainLines(file) && OpensAnnotated(file[0], file[1]) && ThirdMentions(file, sinkNodes)
  }

  lemma AnnotatedLines(note: string, opening: string)
    requires note == "@Get" && opening == "void f() {"
    ensures OpensAnnotated(note, opening)
  {
    AnnotationLine(note);
    OpeningLine(opening);
  }

  lemma PlainLines(file: seq<string>)
    requires file == ["@Get", "void f() {", "exec();", "}"]
    ensures FewPlainLines(file)
  {
  }

  lemma Annotated(file: seq<string>, sinkNodes: seq<string>)
    requires file == ["@Get", "void f() {", "exec();", "}"] && sinkNodes == ["exec"]
    ensures BeginsAnnotated(file, sinkNodes)
  {
    PlainLines(file);
    AnnotatedLines(file[0], file[1]);
    ThirdCalls(file, sinkNodes);
  }

  lemma OpensHere(file: seq<string>, start: nat)
    requires start < |file| && OpensBody(file[start]) && !ClassLike(TrimSpace(file[start]))
    ensures OpensNear(file, start, Some(start))
  {
    assert IsFirst(file, start, Least(start + SCAN_AHEAD, |file|), OpensBodyOrClass, Some(start));
    assert Chosen(file, start, Some(start), Some(start));
  }

  lemma AnnotatedOrigin(file: seq<string>, sinkNodes: seq<string>, name: string, origin: Origin, body: string)
    requires BeginsAnnotated(file, sinkNodes) && TakenFrom(file, 1, name, origin, body)
    ensures origin.BraceRun? && origin.open == 1 && origin.signature == 0 && origin.end > 2
  {
    OpensHere(file, 1);
    OpeningIsUnique(file, 1, name, Some(1), if origin.BraceRun? then Some(origin.open) else None);
    LinesSnoc(file, 0, 0);
    LinesSnoc(file, 0, 1);
    assert Depth(file, 1, 2) == Braces(Strip(file[1]));
  }

  /** A line without blanks around is shown as it is. */
  lemma TrimmedIsShown(file: seq<string>, at: nat, shown: seq<string>, i: nat)
    requires Lists(file, at, shown) && i < |shown| && Trimmed(file[at + i])
    ensures shown[i] == file[at + i]
  {
    assert file[at..at + |shown|][i] == file[at + i];
  }

  lemma AnnotatedBody(file: seq<string>, sinkNodes: seq<string>, name: string, origin: Origin, body: string)
    requires BeginsAnnotated(file, sinkNodes) && TakenFrom(file, 1, name, origin, body)
    ensures FirstMention(Split(body), sinkNodes, 2) && Split(body)[2] == file[2]
  {
    AnnotatedOrigin(file, sinkNodes, name, origin, body);
    var at := BodyShowsFileLines(file, 1, name, origin, body);
    var shown := Split(body);
    assert |shown| > 2 by {
      assert file[2][0] in file[2];
    }
    TrimmedIsShown(file, at, shown, 0);
    TrimmedIsShown(file, at, shown, 1);
    TrimmedIsShown(file, at, shown, 2);
  }

  /** Given the method's line 2, the sink on line 3 is listed and highlighted as line 4. */
  lemma AnnotatedIsMisnumbered(file: seq<string>, name: string, origin: Origin, f: Finding, surface: Surface)
    requires BeginsAnnotated(file, surface.sinkNodes) && TakenFrom(file, 1, name, origin, surface.code)
    requires surface.line == 2
    requires forall k: nat | FirstMention(Split(surface.code), surface.sinkNodes, k) :: Locates(f, surface, k)
    ensures CodeLine(4, file[2], true) in Listing(f.matchedCode, f.start, f.end)
  {
    AnnotatedBody(file, surface.sinkNodes, name, origin, surface.code);
    var at, skipped := ReportFollowsFileExactlyWhen(file, 1, name, origin, f, surface, 2);
    assert Listing(f.matchedCode, f.start, f.end)[2 - skipped] == CodeLine(4, file[2], true);
  }

  /** On such a file, the call on line 3 is listed and highlighted as line 4. */
  lemma CallIsMisnumbered(file: seq<string>, name: string, origin: Origin, f: Finding, surface: Surface)
    requires file == ["@Get", "void f() {", "exec();", "}"] && surface.sinkNodes == ["exec"]
    requires TakenFrom(file, 1, name, origin, surface.code) && surface.line == 2
    requires forall k: nat | FirstMention(Split(surface.code), surface.sinkNodes, k) :: Locates(f, surface, k)
    ensures file[3 - 1] == "exec();" && CodeLine(4, "exec();", true) in Listing(f.matchedCode, f.start, f.end)
  {
    Annotated(file, surface.sinkNodes);
    AnnotatedIsMisnumbered(file, name, origin, f, surface);
  }
}
