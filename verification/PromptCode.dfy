/** The code that the model is shown: indentation, blank lines and comment lines dropped, and a
    window around the sink's line if it is still too long (internal/semantic/analysis/prompt.go). */
module PromptCode {
  import opened BodyLines
  import opened FunctionBody
  import opened Text
  import opened TextWindows

  const BUDGET := 4000

  // ---- Dropping lines ---------------------------------------------------------------------------

  /** strings.TrimLeft(line, " \t") */
  function Unindent(line: string): string {
    if line != "" && line[0] in {' ', '\t'} then Unindent(line[1..]) else line
  }

  function Unindented(lines: seq<string>): (r: seq<string>)
    ensures |r| == |lines|
  {
    seq(|lines|, i requires 0 <= i < |lines| => Unindent(lines[i]))
  }

  method StripIndent(code: string) returns (r: string)
    ensures r == Join(Unindented(Split(code)))
  {
    var lines := Split(code);
    for i := 0 to |lines|
      invariant |lines| == |Split(code)|
      invariant forall h | 0 <= h < |lines| :: lines[h] == if h < i then Unindent(Split(code)[h]) else Split(code)[h]
    {
      lines := lines[i := Unindent(lines[i])];
    }
    assert lines == Unindented(Split(code));
    return Join(lines);
  }

  /** Neither blank nor a comment line. */
  predicate Kept(line: string) {
    var trimmed := TrimSpace(line);
    trimmed != "" && !HasPrefix(trimmed, "//") && !HasPrefix(trimmed, "#")
  }

  /** s begins with p behind blanks only. */
  ghost predicate LeadsWith(s: string, p: string) {
    exists lead, rest :: Blank(lead) && s == lead + (p + rest)
  }

  lemma {:induction false} LeadOf(s: string) returns (lead: string)
    ensures Blank(lead) && s == lead + TrimLeft(s)
  {
    lead := "";
    if s != "" && Space(s[0]) {
      var inner := LeadOf(s[1..]);
      lead := [s[0]] + inner;
      assert s == [s[0]] + s[1..];
    }
  }

  lemma {:induction false} TrimRightCuts(s: string)
    ensures |TrimRight(s)| <= |s| && TrimRight(s) == s[..|TrimRight(s)|]
  {
    if s != "" && Space(s[|s| - 1]) {
      TrimRightCuts(s[..|s| - 1]);
    }
  }

  lemma TrimmedLeadsWith(s: string, p: string)
    requires HasPrefix(TrimSpace(s), p)
    ensures LeadsWith(s, p)
  {
    var t := TrimLeft(s);
    TrimRightCuts(t);
    var lead := LeadOf(s);
    assert t[..|p|] == TrimRight(t)[..|p|];
    assert t == p + t[|p|..];
  }

  lemma LeadingIsKept(s: string, p: string)
    requires p != "" && !Space(p[0]) && !Space(p[|p| - 1]) && LeadsWith(s, p)
    ensures HasPrefix(TrimSpace(s), p)
  {
    var lead, rest :| Blank(lead) && s == lead + (p + rest);
    TrimLeftSkips(lead, p + rest);
    assert TrimLeft(p + rest) == p + rest;
    TrimRightSkips(p, rest);
    assert HasPrefix(p + TrimRight(rest), p);
  }

  lemma LeadsWithMeans(s: string, p: string)
    requires p != "" && !Space(p[0]) && !Space(p[|p| - 1])
    ensures HasPrefix(TrimSpace(s), p) <==> LeadsWith(s, p)
  {
    if HasPrefix(TrimSpace(s), p) {
      TrimmedLeadsWith(s, p);
    }
    if LeadsWith(s, p) {
      LeadingIsKept(s, p);
    }
  }

  /** A line is dropped exactly if it is blank, or begins with // or # behind blanks. */
  lemma DroppedExactlyWhen(line: string)
    ensures !Kept(line) <==> Blank(line) || LeadsWith(line, "//") || LeadsWith(line, "#")
  {
    TrimSpaceBlank(line);
    LeadsWithMeans(line, "//");
    LeadsWithMeans(line, "#");
  }

  function KeptLines(lines: seq<string>): seq<string> {
    if lines == [] then []
    else
      var last := lines[|lines| - 1];
      KeptLines(lines[..|lines| - 1]) + if Kept(last) then [last] else []
  }

  /** How many lines are dropped. */
  function Dropped(lines: seq<string>): nat {
    if lines == [] then 0 else Dropped(lines[..|lines| - 1]) + if Kept(lines[|lines| - 1]) then 0 else 1
  }

  method MinifyCode(code: string) returns (r: string)
    ensures r == Join(KeptLines(Split(code)))
  {
    var lines := Split(code);
    var out := [];
    for i := 0 to |lines|
      invariant out == KeptLines(lines[..i])
    {
      assert lines[..i + 1][..i] == lines[..i];
      if Kept(lines[i]) {
        out := out + [lines[i]];
      }
    }
    assert lines[..|lines|] == lines;
    return Join(out);
  }

  lemma {:induction false} KeptAndDropped(lines: seq<string>)
    ensures |KeptLines(lines)| + Dropped(lines) == |lines|
  {
    if lines != [] {
      KeptAndDropped(lines[..|lines| - 1]);
    }
  }

  lemma {:induction false} NoneDropped(lines: seq<string>)
    ensures Dropped(lines) == 0 <==> forall i | 0 <= i < |lines| :: Kept(lines[i])
  {
    if lines != [] {
      var init := lines[..|lines| - 1];
      NoneDropped(init);
      assert forall i | 0 <= i < |init| :: init[i] == lines[i];
    }
  }

  predicate NoneKeptAfter(lines: seq<string>, i: nat) {
    forall j | i < j < |lines| :: !Kept(lines[j])
  }

  /** Line i is among the remaining ones, moved up by the lines dropped before it, and is their
      last exactly if no later one is kept. */
  predicate Remains(lines: seq<string>, remaining: seq<string>, i: nat)
    requires i < |lines|
  {
    var at := i - Dropped(lines[..i]);
    && 0 <= at < |remaining| && remaining[at] == lines[i]
    && (at == |remaining| - 1 <==> NoneKeptAfter(lines, i))
  }

  lemma {:induction false} KeptRemains(lines: seq<string>, i: nat)
    requires i < |lines| && Kept(lines[i])
    ensures Remains(lines, KeptLines(lines), i)
  {
    var n := |lines| - 1;
    var init := lines[..n];
    if i == n {
      KeptAndDropped(init);
    } else {
      KeptRemains(init, i);
      assert init[..i] == lines[..i];
      KeptAfterSnoc(lines, i);
    }
  }

  lemma KeptAfterSnoc(lines: seq<string>, i: nat)
    requires i < |lines| - 1
    ensures NoneKeptAfter(lines, i) <==> NoneKeptAfter(lines[..|lines| - 1], i) && !Kept(lines[|lines| - 1])
  {
    var init := lines[..|lines| - 1];
    assert forall j | i < j < |init| :: init[j] == lines[j];
  }

  lemma {:induction false} UnindentedLine(line: string)
    requires '\n' !in line
    ensures '\n' !in Unindent(line)
  {
    if line != "" && line[0] in {' ', '\t'} {
      UnindentedLine(line[1..]);
    }
  }

  lemma UnindentedAreSingle(lines: seq<string>)
    requires SingleLines(lines)
    ensures SingleLines(Unindented(lines))
  {
    forall i | 0 <= i < |lines| ensures '\n' !in Unindented(lines)[i] {
      UnindentedLine(lines[i]);
    }
  }

  lemma {:induction false} KeptAreSingle(lines: seq<string>)
    requires SingleLines(lines)
    ensures SingleLines(KeptLines(lines))
  {
    if lines != [] {
      KeptAreSingle(lines[..|lines| - 1]);
    }
  }

  // ---- The code in the prompt -------------------------------------------------------------------

  /** The lines that are left of a body. */
  function PromptLines(body: string): seq<string> {
    KeptLines(Unindented(Split(body)))
  }

  /** The lines of the code made from them. */
  function SentLines(body: string): (lines: seq<string>)
    ensures |lines| >= 1
  {
    Split(Join(PromptLines(body)))
  }

  /** cutHead is TruncateUTF8 within the budget, which is modelled on bytes. */
  method CodeForPrompt(body: string, sinkInFile: bool, line: int, sinkLine: int, cutHead: string -> string)
    returns (code: string, ghost lo: nat, ghost hi: nat)
    ensures var whole := Join(PromptLines(body));
      if |whole| <= BUDGET then code == whole
      else if sinkInFile && sinkLine > 0 && sinkLine >= line then
        && BestWindow(Split(whole), BUDGET, Clamp(sinkLine - line, |Split(whole)|), lo, hi)
        && code == Join(Marked(Split(whole), lo, hi))
      else code == cutHead(whole) + "\n... [truncated]"
  {
    lo, hi := 0, 0;
    var stripped := StripIndent(body);
    SplitGivesSingleLines(body);
    UnindentedAreSingle(Split(body));
    SplitJoin(Unindented(Split(body)));
    code := MinifyCode(stripped);
    if |code| > BUDGET {
      if sinkInFile && sinkLine > 0 && sinkLine >= line {
        code, lo, hi := TruncateAroundLine(code, sinkLine - line, BUDGET);
      } else {
        code := cutHead(code) + "\n... [truncated]";
      }
    }
  }

  /** How many lines before line i of the body are dropped. */
  function DroppedBefore(body: string, i: nat): nat
    requires i < |Split(body)|
  {
    Dropped(Unindented(Split(body))[..i])
  }

  /** The window for the given target is built around line i of the body. */
  predicate IsTarget(body: string, i: nat, target: int)
    requires i < |Split(body)|
  {
    Clamp(target, |SentLines(body)|) == i - DroppedBefore(body, i)
  }

  /** As many lines were dropped before line i, or more and no later line is left. */
  predicate DropsMakeUpFor(body: string, i: nat, shift: int)
    requires i < |Split(body)|
  {
    || shift == DroppedBefore(body, i)
    || (shift < DroppedBefore(body, i) && NoneKeptAfter(Unindented(Split(body)), i))
  }

  /** Line i is sent, and is the target exactly if the lines dropped before it make up for the shift. */
  predicate IsTargetExactlyWhen(body: string, i: nat, target: int, shift: int)
    requires i < |Split(body)|
  {
    && Remains(Unindented(Split(body)), SentLines(body), i)
    && (IsTarget(body, i, target) <==> DropsMakeUpFor(body, i, shift))
  }

  /** So it is with a target that is `shift` less than i. */
  lemma TargetIsLineExactlyWhen(body: string, i: nat, shift: int)
    requires i < |Split(body)| && Kept(Unindent(Split(body)[i])) && shift <= i
    ensures IsTargetExactlyWhen(body, i, i - shift, shift)
  {
    LineIsSent(body, i);
    ClampExactly(i - shift, |SentLines(body)|, i - DroppedBefore(body, i));
  }

  lemma LineIsSent(body: string, i: nat)
    requires i < |Split(body)| && Kept(Unindent(Split(body)[i]))
    ensures Remains(Unindented(Split(body)), SentLines(body), i)
  {
    KeptRemains(Unindented(Split(body)), i);
    SentLinesAre(body);
  }

  lemma SentLinesAre(body: string)
    requires PromptLines(body) != []
    ensures SentLines(body) == KeptLines(Unindented(Split(body)))
  {
    SplitGivesSingleLines(body);
    UnindentedAreSingle(Split(body));
    KeptAreSingle(Unindented(Split(body)));
    SplitJoin(PromptLines(body));
  }

  lemma ClampExactly(target: nat, count: nat, at: nat)
    requires at < count
    ensures Clamp(target, count) == at <==> target == at || (target > at && at == count - 1)
  {
  }

  // ---- The sink's line in the file --------------------------------------------------------------

  lemma {:induction false} TrimLeftAgain(s: string)
    ensures TrimSpace(TrimLeft(s)) == TrimSpace(s)
  {
    if s != "" && Space(s[0]) {
      TrimLeftAgain(s[1..]);
    }
  }

  lemma {:induction false} TrimRightFirst(s: string)
    ensures TrimSpace(TrimRight(s)) == TrimSpace(s)
  {
    if s != "" && Space(s[|s| - 1]) {
      var init, last := s[..|s| - 1], s[|s| - 1];
      TrimRightFirst(init);
      assert s == init + [last];
      BlankBehind(init, last);
    }
  }

  lemma {:induction false} UnindentTrims(line: string)
    ensures TrimSpace(Unindent(line)) == TrimSpace(line)
  {
    if line != "" && line[0] in {' ', '\t'} {
      UnindentTrims(line[1..]);
    }
  }

  /** But for blanks around, the body's line i, without its indentation, is the file's line at its place. */
  predicate IsLineOfFile(file: seq<string>, at: nat, shown: seq<string>, i: nat)
    requires i < |shown|
  {
    at + i < |file| && TrimSpace(Unindent(shown[i])) == TrimSpace(file[at + i])
  }

  lemma LineOfFile(file: seq<string>, origin: Origin, at: nat, shown: seq<string>, i: nat)
    requires Shows(file, origin, at, shown) && i < |shown| && Kept(Unindent(shown[i]))
    ensures IsLineOfFile(file, at, shown, i)
  {
    UnindentTrims(shown[i]);
    if OnlyBlanks(file, origin) {
      BlankStart(file, origin, at);
      assert Blank(shown[i]);
      TrimSpaceBlank(shown[i]);
    } else {
      ListedTrims(file, at, shown, i);
    }
  }

  lemma BlankStart(file: seq<string>, origin: Origin, at: nat)
    requires OnlyBlanks(file, origin) && BeginsAt(file, origin, at) && at < |file|
    ensures Blank(Clip(file[at]))
  {
    BlankLines(file[at..origin.end]);
    assert file[at..origin.end][0] == file[at];
  }

  lemma ListedTrims(file: seq<string>, at: nat, shown: seq<string>, i: nat)
    requires Lists(file, at, shown) && i < |shown|
    ensures TrimSpace(shown[i]) == TrimSpace(file[at + i])
  {
    assert file[at..at + |shown|][i] == file[at + i];
    TrimLeftAgain(file[at + i]);
    TrimRightFirst(file[at + i]);
    TrimRightFirst(TrimLeft(file[at + i]));
  }

  /** A target computed from the sink's line in the file is the sink's line exactly if the lines
      dropped before it make up for how far the surface's line is behind the body's first line. */
  lemma TargetIsSinkExactlyWhen(file: seq<string>, origin: Origin, at: nat, body: string, line: int, sinkLine: int)
    requires Shows(file, origin, at, Split(body))
    requires line <= sinkLine && at < sinkLine <= at + |Split(body)|
    requires Kept(Unindent(Split(body)[sinkLine - at - 1]))
    ensures IsLineOfFile(file, at, Split(body), sinkLine - at - 1)
    ensures IsTargetExactlyWhen(body, sinkLine - at - 1, sinkLine - line, line - (at + 1))
  {
    LineOfFile(file, origin, at, Split(body), sinkLine - at - 1);
    ShiftedTarget(body, at, line, sinkLine);
  }

  lemma ShiftedTarget(body: string, at: nat, line: int, sinkLine: int)
    requires line <= sinkLine && at < sinkLine <= at + |Split(body)|
    requires Kept(Unindent(Split(body)[sinkLine - at - 1]))
    ensures IsTargetExactlyWhen(body, sinkLine - at - 1, sinkLine - line, line - (at + 1))
  {
    var i, shift := sinkLine - at - 1, line - (at + 1);
    assert i - shift == sinkLine - line;
    TargetIsLineExactlyWhen(body, i, shift);
  }

  /** In particular, where the body begins on the surface's line: exactly if no line before the
      sink was dropped, or no line after it is left. */
  lemma UnshiftedTargetExactlyWhen(body: string, i: nat)
    requires i < |Split(body)| && Kept(Unindent(Split(body)[i]))
    ensures IsTarget(body, i, i) <==>
      || (forall j | 0 <= j < i :: Kept(Unindent(Split(body)[j])))
      || NoneKeptAfter(Unindented(Split(body)), i)
  {
    var lines := Unindented(Split(body));
    TargetIsLineExactlyWhen(body, i, 0);
    NoneDropped(lines[..i]);
    assert forall j | 0 <= j < i :: lines[..i][j] == Unindent(Split(body)[j]);
  }
}
