/** Which lines of the source file the text of a function body shows
    (internal/semantic/enrichment/enrichment.go). */
module BodyLines {
  import opened Findings
  import opened FunctionBody
  import opened Text

  // ---- Trimming a run of lines ------------------------------------------------------------------

  function TrimHead(lines: seq<string>): seq<string>
    requires lines != []
  {
    lines[0 := TrimLeft(lines[0])]
  }

  /** The lines, the first trimmed on its left and the last on its right. */
  function TrimEnds(lines: seq<string>): seq<string>
    requires lines != []
  {
    TrimHead(lines)[|lines| - 1 := TrimRight(TrimHead(lines)[|lines| - 1])]
  }

  lemma TrimHeadOfJoin(lines: seq<string>)
    requires lines != [] && !Blank(lines[0])
    ensures TrimLeft(Join(lines)) == Join(TrimHead(lines))
  {
    if |lines| > 1 {
      var others := "\n" + Join(lines[1..]);
      assert Join(lines) == lines[0] + others;
      TrimLeftSkips(lines[0], others);
      assert TrimHead(lines)[1..] == lines[1..];
      assert Join(TrimHead(lines)) == TrimLeft(lines[0]) + others;
    }
  }

  lemma TrimTailOfJoin(lines: seq<string>)
    requires lines != [] && !Blank(lines[|lines| - 1])
    ensures TrimRight(Join(lines)) == Join(lines[|lines| - 1 := TrimRight(lines[|lines| - 1])])
  {
    var n := |lines| - 1;
    if n > 0 {
      var init := lines[..n];
      assert lines == init + [lines[n]];
      assert lines[n := TrimRight(lines[n])] == init + [TrimRight(lines[n])];
      JoinSnoc(init, lines[n]);
      JoinSnoc(init, TrimRight(lines[n]));
      TrimRightSkips(Join(init) + "\n", lines[n]);
    }
  }

  lemma TrimLeftIsSuffix(s: string)
    ensures forall c | c in TrimLeft(s) :: c in s
    ensures Blank(TrimLeft(s)) <==> Blank(s)
  {
    TrimLeftBlank(s);
    if s != "" && Space(s[0]) {
      TrimLeftIsSuffix(s[1..]);
    }
  }

  lemma TrimRightIsPrefix(s: string)
    ensures forall c | c in TrimRight(s) :: c in s
  {
    if s != "" && Space(s[|s| - 1]) {
      TrimRightIsPrefix(s[..|s| - 1]);
    }
  }

  lemma TrimOfJoin(lines: seq<string>)
    requires lines != [] && !Blank(lines[0]) && !Blank(lines[|lines| - 1])
    ensures TrimSpace(Join(lines)) == Join(TrimEnds(lines))
  {
    TrimHeadOfJoin(lines);
    TrimLeftIsSuffix(lines[0]);
    TrimTailOfJoin(TrimHead(lines));
  }

  lemma TrimEndsAreSingle(lines: seq<string>)
    requires SingleLines(lines) && lines != []
    ensures SingleLines(TrimEnds(lines))
  {
    var head, last := TrimHead(lines), |lines| - 1;
    TrimLeftIsSuffix(lines[0]);
    assert SingleLines(head);
    TrimRightIsPrefix(head[last]);
  }

  lemma {:induction false} LinesJoin(lines: seq<string>)
    requires lines != []
    ensures Lines(lines) == Join(lines) + "\n"
  {
    var init, last := lines[..|lines| - 1], lines[|lines| - 1];
    if init != [] {
      LinesJoin(init);
      JoinSnoc(init, last);
      assert lines == init + [last];
    }
  }

  lemma {:induction false} LinesAdd(a: seq<string>, b: seq<string>)
    ensures Lines(a + b) == Lines(a) + Lines(b)
  {
    if b == [] {
      assert a + b == a;
    } else {
      var n := |b| - 1;
      LinesAdd(a, b[..n]);
      assert (a + b)[..|a| + n] == a + b[..n];
      Associate(Lines(a), Lines(b[..n]), b[n]);
      Associate(Lines(a), Lines(b[..n]) + b[n], "\n");
    }
  }

  lemma {:induction false} BlankLines(lines: seq<string>)
    ensures Blank(Lines(lines)) <==> forall i | 0 <= i < |lines| :: Blank(lines[i])
  {
    if lines != [] {
      var n := |lines| - 1;
      BlankLines(lines[..n]);
      assert Lines(lines) == Lines(lines[..n]) + lines[n] + "\n";
      assert forall i | 0 <= i < n :: lines[..n][i] == lines[i];
    }
  }

  /** A run's first and last lines that are not blank. */
  ghost predicate Spans(lines: seq<string>, from: nat, end: nat, first: nat, last: nat) {
    && from <= first <= last < end <= |lines| && !Blank(lines[first]) && !Blank(lines[last])
    && (forall i | from <= i < first :: Blank(lines[i]))
    && (forall i | last < i < end :: Blank(lines[i]))
  }

  lemma {:induction false} FindSpan(lines: seq<string>, from: nat, end: nat) returns (first: nat, last: nat)
    requires from <= end <= |lines| && !Blank(Lines(lines[from..end]))
    ensures Spans(lines, from, end, first, last)
    decreases end - from
  {
    BlankLines(lines[from..end]);
    BlankLines(lines[from + 1..end]);
    if !Blank(lines[from]) {
      first := from;
      last := LastOf(lines, from, end);
    } else {
      first, last := FindSpan(lines, from + 1, end);
    }
  }

  lemma {:induction false} LastOf(lines: seq<string>, first: nat, end: nat) returns (last: nat)
    requires first < end <= |lines| && !Blank(lines[first])
    ensures Spans(lines, first, end, first, last)
    decreases end
  {
    last := end - 1;
    if Blank(lines[end - 1]) {
      last := LastOf(lines, first, end - 1);
    }
  }

  /** The text of a run, cut behind its leading blank lines and after its last one that is not. */
  lemma RunText(lead: seq<string>, shown: seq<string>, trail: seq<string>)
    requires shown != []
    ensures Lines(lead + shown + trail) == Lines(lead) + Join(shown) + ("\n" + Lines(trail))
  {
    LinesAdd(lead + shown, trail);
    LinesAdd(lead, shown);
    LinesJoin(shown);
    var l, s, t := Lines(lead), Join(shown), Lines(trail);
    assert l + (s + "\n") + t == l + s + ("\n" + t);
  }

  lemma BlanksAround(lead: string, s: string, trail: string)
    requires Blank(lead) && Blank(trail)
    ensures TrimSpace(lead + s + trail) == TrimSpace(s)
  {
    assert lead + s + trail == lead + (s + trail);
    TrimLeftSkips(lead, s + trail);
    TrimLeftSkips(s, trail);
    TrimLeftBlank(s);
    TrimLeftBlank(trail);
    TrimRightSkips(TrimLeft(s), trail);
  }

  /** The trimmed text of a run consists of its lines from the first to the last that is not
      blank, trimmed at the two ends. */
  lemma TrimmedRun(lines: seq<string>, from: nat, end: nat, first: nat, last: nat)
    requires SingleLines(lines) && Spans(lines, from, end, first, last)
    ensures Split(TrimSpace(Lines(lines[from..end]))) == TrimEnds(lines[first..last + 1])
  {
    var lead, shown, trail := lines[from..first], lines[first..last + 1], lines[last + 1..end];
    assert lines[from..end] == lead + shown + trail;
    RunText(lead, shown, trail);
    assert Blank(Lines(lead)) by { BlankLines(lead); }
    assert Blank("\n" + Lines(trail)) by { BlankLines(trail); }
    BlanksAround(Lines(lead), Join(shown), "\n" + Lines(trail));
    TrimOfJoin(shown);
    TrimEndsAreSingle(shown);
    SplitJoin(TrimEnds(shown));
  }

  // ---- The file lines of a body -----------------------------------------------------------------

  /** The body is the start of a blank line: its window has nothing else. */
  ghost predicate OnlyBlanks(file: seq<string>, origin: Origin) {
    origin.Window? && origin.start < origin.end <= |file| && Blank(Lines(file[origin.start..origin.end]))
  }

  /** The index of the file line that the body begins with. */
  ghost predicate BeginsAt(file: seq<string>, origin: Origin, at: nat) {
    match origin
    case Nowhere => false
    case BraceRun(sig, _, _) => at == sig
    case Window(start, end) =>
      if OnlyBlanks(file, origin) then at == start
      else start <= at < end <= |file| && !Blank(file[at]) && forall i | start <= i < at :: Blank(file[i])
  }

  /** These are the file's lines from index at on, trimmed at the two ends. */
  predicate Lists(file: seq<string>, at: nat, shown: seq<string>) {
    shown != [] && at + |shown| <= |file| && shown == TrimEnds(file[at..at + |shown|])
  }

  /** They are all the run's lines but the blank ones around. */
  ghost predicate Shows(file: seq<string>, origin: Origin, at: nat, shown: seq<string>) {
    && origin != Nowhere && BeginsAt(file, origin, at)
    && if OnlyBlanks(file, origin) then at < |file| && shown == [Clip(file[at])]
       else Lists(file, at, shown) && BlankBetween(file, at + |shown|, origin.end)
  }

  ghost predicate BlankBetween(file: seq<string>, from: nat, end: nat) {
    forall i | from <= i < end && i < |file| :: Blank(file[i])
  }

  /** A body's lines are consecutive lines of the file, from the signature on or from the window's
      first line that is not blank. */
  lemma BodyShowsFileLines(file: seq<string>, start: nat, name: string, origin: Origin, body: string) returns (at: nat)
    requires SingleLines(file) && start < |file| && TakenFrom(file, start, name, origin, body)
    ensures Shows(file, origin, at, Split(body))
  {
    if origin.BraceRun? {
      BraceRunIsTrimmed(file, start, name, origin, body);
      at := origin.signature;
      BraceRunShows(file, origin, body);
    } else {
      at := WindowShows(file, start, name, origin, body);
    }
  }

  lemma BraceRunShows(file: seq<string>, origin: Origin, body: string)
    requires SingleLines(file) && origin.BraceRun? && origin.signature < origin.end <= |file|
    requires !Blank(file[origin.signature]) && body == TrimSpace(Lines(file[origin.signature..origin.end]))
    ensures Shows(file, origin, origin.signature, Split(body))
  {
    var at := RunShowsFileLines(file, origin.signature, origin.end, body);
    assert at == origin.signature;
  }

  lemma WindowShows(file: seq<string>, start: nat, name: string, origin: Origin, body: string) returns (at: nat)
    requires SingleLines(file) && start < |file| && TakenFrom(file, start, name, origin, body) && origin.Window?
    ensures Shows(file, origin, at, Split(body))
  {
    if OnlyBlanks(file, origin) {
      at := start;
      BlankBody(file, start, origin.end, body);
    } else {
      BodyIsTheTrimmedRun(file, start, name, origin, body);
      at := RunShowsFileLines(file, start, origin.end, body);
    }
  }

  lemma BraceRunIsTrimmed(file: seq<string>, start: nat, name: string, origin: Origin, body: string)
    requires start < |file| && TakenFrom(file, start, name, origin, body) && origin.BraceRun?
    ensures origin.signature < origin.end <= |file| && !Blank(file[origin.signature])
    ensures body == TrimSpace(Lines(file[origin.signature..origin.end]))
  {
    BodyIsTheTrimmedRun(file, start, name, origin, body);
    OpeningLineHasBrace(file, start, name, origin.open);
    FirstLineOfRunIsNotBlank(file, origin.signature, origin.open);
  }

  lemma RunShowsFileLines(file: seq<string>, from: nat, end: nat, body: string) returns (at: nat)
    requires SingleLines(file) && from < end <= |file| && body == TrimSpace(Lines(file[from..end]))
    requires !Blank(file[from]) || !Blank(Lines(file[from..end]))
    ensures from <= at < end && !Blank(file[at]) && forall i | from <= i < at :: Blank(file[i])
    ensures Lists(file, at, Split(body)) && BlankBetween(file, at + |Split(body)|, end)
  {
    BlankLines(file[from..end]);
    assert file[from..end][0] == file[from];
    var first, last := FindSpan(file, from, end);
    TrimmedRun(file, from, end, first, last);
    at := first;
  }

  lemma BlankBody(file: seq<string>, start: nat, end: nat, body: string)
    requires SingleLines(file) && start < end <= |file|
    requires Blank(Lines(file[start..end])) && body == OrLine(Lines(file[start..end]), file[start])
    ensures Split(body) == [Clip(file[start])]
  {
    TrimSpaceBlank(Lines(file[start..end]));
    SplitJoin([Clip(file[start])]);
  }

  // ---- Whether the body begins on the given line ------------------------------------------------

  /** The given line is the signature's line; or no body was opened and it is not blank (or all
      lines of the window are). */
  ghost predicate BeginsOnStart(file: seq<string>, start: nat, origin: Origin)
    requires start < |file|
  {
    match origin
    case Nowhere => false
    case BraceRun(_, open, _) => open < |file| && IsSignature(file, open, start)
    case Window(_, _) => !Blank(file[start]) || OnlyBlanks(file, origin)
  }

  lemma SignatureIsUnique(lines: seq<string>, open: nat, sig: nat, sig': nat)
    requires open < |lines| && IsSignature(lines, open, sig) && IsSignature(lines, open, sig')
    ensures sig == sig'
  {
  }

  lemma BeginsOnStartExactlyWhen(file: seq<string>, start: nat, name: string, origin: Origin, body: string, at: nat)
    requires start < |file| && TakenFrom(file, start, name, origin, body) && BeginsAt(file, origin, at)
    ensures at == start <==> BeginsOnStart(file, start, origin)
  {
    match origin
    case BraceRun(sig, open, _) =>
      if IsSignature(file, open, start) {
        SignatureIsUnique(file, open, sig, start);
      }
    case Window(_, end) =>
      BlankLines(file[start..end]);
      assert file[start..end][0] == file[start];
    case Nowhere =>
  }

  // ---- The rules leave no choice ----------------------------------------------------------------

  lemma FirstIsUnique(lines: seq<string>, lo: nat, hi: nat, test: string -> bool, at: Option<nat>, at': Option<nat>)
    requires hi <= |lines| && IsFirst(lines, lo, hi, test, at) && IsFirst(lines, lo, hi, test, at')
    ensures at == at'
  {
  }

  lemma ChosenIsUnique(lines: seq<string>, start: nat, first: Option<nat>, open: Option<nat>, open': Option<nat>)
    requires start < |lines| && (first.Some? ==> first.value < |lines|)
    requires Chosen(lines, start, first, open) && Chosen(lines, start, first, open')
    ensures open == open'
  {
  }

  lemma NearIsUnique(lines: seq<string>, start: nat, open: Option<nat>, open': Option<nat>)
    requires start < |lines| && OpensNear(lines, start, open) && OpensNear(lines, start, open')
    ensures open == open'
  {
    var hi := Least(start + SCAN_AHEAD, |lines|);
    var first: Option<nat> :| IsFirst(lines, start, hi, OpensBodyOrClass, first) && Chosen(lines, start, first, open);
    var first': Option<nat> :| IsFirst(lines, start, hi, OpensBodyOrClass, first') && Chosen(lines, start, first', open');
    FirstIsUnique(lines, start, hi, OpensBodyOrClass, first, first');
    ChosenIsUnique(lines, start, first, open, open');
  }

  lemma ByNameIsUnique(lines: seq<string>, name: string, open: Option<nat>, open': Option<nat>)
    requires OpensByName(lines, name, open) && OpensByName(lines, name, open')
    ensures open == open'
  {
    if open.Some? && open'.Some? {
      var i :| 0 <= i < |lines| && OpensFrom(lines, name, i, open) && NoneBefore(lines, name, i);
      var j :| 0 <= j < |lines| && OpensFrom(lines, name, j, open') && NoneBefore(lines, name, j);
      NotBoth(lines, name, i, open, j);
      NotBoth(lines, name, j, open', i);
      FirstIsUnique(lines, i, Least(i + SCAN_AHEAD, |lines|), OpensBody, open, open');
    } else if open.Some? {
      FoundIsNotNone(lines, name, open);
    } else if open'.Some? {
      FoundIsNotNone(lines, name, open');
    }
  }

  lemma FoundIsNotNone(lines: seq<string>, name: string, open: Option<nat>)
    requires open.Some? && OpensByName(lines, name, open)
    ensures !OpensByName(lines, name, None)
  {
    var i :| 0 <= i < |lines| && OpensFrom(lines, name, i, open) && NoneBefore(lines, name, i);
    assert NoneBefore(lines, name, |lines|) ==> |lines| <= i by {
      if NoneBefore(lines, name, |lines|) {
        NotBoth(lines, name, i, open, |lines|);
      }
    }
  }

  lemma NotBoth(lines: seq<string>, name: string, i: nat, open: Option<nat>, n: nat)
    requires i < |lines| && n <= |lines| && open.Some? && OpensFrom(lines, name, i, open) && NoneBefore(lines, name, n)
    ensures n <= i
  {
    if i < n {
      FirstIsUnique(lines, i, Least(i + SCAN_AHEAD, |lines|), OpensBody, open, None);
    }
  }

  lemma OpeningIsUnique(lines: seq<string>, start: nat, name: string, open: Option<nat>, open': Option<nat>)
    requires start < |lines| && Opens(lines, start, name, open) && Opens(lines, start, name, open')
    ensures open == open'
  {
    if OpensNear(lines, start, open) && OpensNear(lines, start, open') {
      NearIsUnique(lines, start, open, open');
    } else if OpensNear(lines, start, open) {
      NearIsUnique(lines, start, open, None);
    } else if OpensNear(lines, start, open') {
      NearIsUnique(lines, start, open', None);
    } else {
      ByNameIsUnique(lines, name, open, open');
    }
  }

  lemma RunEndIsUnique(lines: seq<string>, sig: nat, open: nat, end: nat, end': nat)
    requires RunEnds(lines, sig, open, end) && RunEnds(lines, sig, open, end')
    ensures end == end'
  {
  }

  lemma WindowEndIsUnique(lines: seq<string>, start: nat, end: nat, end': nat)
    requires WindowEnds(lines, start, end) && WindowEnds(lines, start, end')
    ensures end == end'
  {
  }

  /** The rules of where a body lies determine the body. */
  lemma BodyIsDetermined(file: seq<string>, start: nat, name: string, origin: Origin, body: string, origin': Origin, body': string)
    requires start < |file| && TakenFrom(file, start, name, origin, body) && TakenFrom(file, start, name, origin', body')
    ensures origin == origin' && body == body'
  {
    var open := if origin.BraceRun? then Some(origin.open) else None;
    var open' := if origin'.BraceRun? then Some(origin'.open) else None;
    OpeningIsUnique(file, start, name, open, open');
    if open.Some? {
      SignatureIsUnique(file, origin.open, origin.signature, origin'.signature);
      RunEndIsUnique(file, origin.signature, origin.open, origin.end, origin'.end);
    } else {
      WindowEndIsUnique(file, start, origin.end, origin'.end);
    }
  }
}
