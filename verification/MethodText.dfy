/** Whose text is read for a function, in terms of the lines of a source file
    (internal/semantic/enrichment/enrichment.go). */
module MethodText {
  import opened BodyLines
  import opened Findings
  import opened FunctionBody
  import opened Text

  // ---- The lines --------------------------------------------------------------------------------

  /** The line begins with a modifier or an annotation. */
  predicate IsDeclaration(line: string) {
    exists word | word in {"private ", "public ", "protected ", "static ", "@"} :: HasPrefix(TrimSpace(line), word)
  }

  predicate IsTypeLine(line: string) {
    exists word | word in {" class ", " interface ", " enum ", " @interface "} :: Contains(TrimSpace(line), word)
  }

  /** Without strings, comments and trailing blanks, the line ends with an opening brace. */
  ghost predicate EndsOpen(line: string) {
    exists head, tail :: Strip(line) == head + "{" + tail && forall c | c in tail :: c == ' ' || c == '\t'
  }

  /** The line can open a method's body. */
  ghost predicate OpensCode(line: string) {
    EndsOpen(line) && (')' in Strip(line) || TrimSpace(line) == "{")
  }

  ghost predicate OpensAny(line: string) {
    OpensCode(line) || (EndsOpen(line) && IsTypeLine(line))
  }

  predicate OpensDeclared(line: string) {
    IsDeclaration(line) && '{' in Strip(line)
  }

  predicate DeclaresMethod(line: string, name: string) {
    IsDeclaration(line) && Contains(TrimSpace(line), name + "(")
  }

  /** The line ends a declaration or a block before. */
  ghost predicate Separates(line: string) {
    TrimSpace(Strip(line)) == "}" || TrimSpace(Strip(line)) == "};" || EndsOpen(line)
  }

  lemma {:induction false} TrimTailOf(s: string) returns (tail: string)
    ensures s == TrimTail(s) + tail && forall c | c in tail :: c == ' ' || c == '\t'
    ensures TrimSpace(TrimTail(s)) == TrimSpace(s)
    ensures TrimTail(s) == "" || (TrimTail(s)[|TrimTail(s)| - 1] != ' ' && TrimTail(s)[|TrimTail(s)| - 1] != '\t')
  {
    if s != "" && s[|s| - 1] in {' ', '\t'} {
      var init, last := s[..|s| - 1], s[|s| - 1];
      tail := TrimTailOf(init);
      assert s == init + [last];
      BlankBehind(init, last);
      tail := tail + [last];
    } else {
      tail := "";
    }
  }

  lemma {:induction false} TrimTailKeeps(head: string, tail: string)
    requires forall c | c in tail :: c == ' ' || c == '\t'
    ensures TrimTail(head + "{" + tail) == head + "{"
  {
    var s := head + "{" + tail;
    if tail == "" {
      assert s == head + "{";
    } else {
      var n := |tail| - 1;
      assert tail[n] in tail && s[..|s| - 1] == head + "{" + tail[..n];
      assert forall c | c in tail[..n] :: c in tail;
      TrimTailKeeps(head, tail[..n]);
    }
  }

  lemma EndsOpenMeans(line: string)
    ensures EndsOpen(line) <==> EndsWithBrace(line)
    ensures ')' in Strip(line) <==> Contains(TrimTail(Strip(line)), ")")
  {
    var s := Strip(line);
    var tail := TrimTailOf(s);
    var trimmed := TrimTail(s);
    if head, rest :| s == head + "{" + rest && forall c | c in rest :: c == ' ' || c == '\t' {
      TrimTailKeeps(head, rest);
      assert trimmed[|trimmed| - 1..] == "{";
    }
    if EndsWithBrace(line) {
      assert trimmed == trimmed[..|trimmed| - 1] + "{";
    }
    OneCharacter(trimmed, ')');
  }

  lemma OneCharacter(s: string, c: char)
    ensures Contains(s, [c]) <==> c in s
  {
    if i :| 0 <= i <= |s| && At(s, [c], i) {
      assert s[i] == s[i..i + 1][0];
    }
    if i :| 0 <= i < |s| && s[i] == c {
      assert s[i..i + 1] == [c] && At(s, [c], i);
    }
  }

  /** What the tests of a line mean. */
  lemma LineMeans(line: string)
    ensures IsDeclaration(line) <==> MethodLike(TrimSpace(line))
    ensures IsTypeLine(line) <==> ClassLike(TrimSpace(line))
    ensures OpensCode(line) <==> OpensBody(line)
    ensures OpensAny(line) <==> OpensBodyOrClass(line)
    ensures OpensDeclared(line) <==> OpensMethod(line)
    ensures forall name :: DeclaresMethod(line, name) <==> Declares(line, name)
    ensures IsDeclaration(line) && !IsTypeLine(line) <==> BeginsSignature(line)
    ensures Separates(line) <==> Boundary(line)
  {
    EndsOpenMeans(line);
    OneCharacter(Strip(line), '{');
    var tail := TrimTailOf(Strip(line));
    WordsMean(TrimSpace(line));
  }

  lemma WordsMean(s: string)
    ensures (exists word | word in {"private ", "public ", "protected ", "static ", "@"} :: HasPrefix(s, word)) <==> MethodLike(s)
    ensures (exists word | word in {" class ", " interface ", " enum ", " @interface "} :: Contains(s, word)) <==> ClassLike(s)
  {
    assert MethodLike(s) ==> exists word | word in {"private ", "public ", "protected ", "static ", "@"} :: HasPrefix(s, word) by {
      assert "private " in {"private ", "public ", "protected ", "static ", "@"};
    }
  }

  lemma LinesMean(file: seq<string>)
    ensures forall i | 0 <= i < |file| ::
      && (IsDeclaration(file[i]) <==> MethodLike(TrimSpace(file[i])))
      && (IsTypeLine(file[i]) <==> ClassLike(TrimSpace(file[i])))
      && (OpensCode(file[i]) <==> OpensBody(file[i]))
      && (OpensAny(file[i]) <==> OpensBodyOrClass(file[i]))
      && (OpensDeclared(file[i]) <==> OpensMethod(file[i]))
      && (IsDeclaration(file[i]) && !IsTypeLine(file[i]) <==> BeginsSignature(file[i]))
      && (Separates(file[i]) <==> Boundary(file[i]))
  {
    forall i | 0 <= i < |file|
      ensures IsDeclaration(file[i]) <==> MethodLike(TrimSpace(file[i]))
      ensures IsTypeLine(file[i]) <==> ClassLike(TrimSpace(file[i]))
      ensures OpensCode(file[i]) <==> OpensBody(file[i])
      ensures OpensAny(file[i]) <==> OpensBodyOrClass(file[i])
      ensures OpensDeclared(file[i]) <==> OpensMethod(file[i])
      ensures IsDeclaration(file[i]) && !IsTypeLine(file[i]) <==> BeginsSignature(file[i])
      ensures Separates(file[i]) <==> Boundary(file[i])
    {
      LineMeans(file[i]);
    }
  }

  // ---- Where a method begins and ends -----------------------------------------------------------

  /** The signature of the body opened on line open begins on line h: the nearest declaration above,
      at most 8 lines away, with nothing separating the two; or open itself if there is none. */
  ghost predicate SignatureBegins(file: seq<string>, open: nat, h: nat)
    requires open < |file|
  {
    if h < open then
      && open <= h + 8 && IsDeclaration(file[h]) && !IsTypeLine(file[h])
      && forall i | h < i < open :: !Separates(file[i]) && (IsDeclaration(file[i]) ==> IsTypeLine(file[i]))
    else
      && h == open
      && forall i | 0 <= i < open && open <= i + 8 && IsDeclaration(file[i]) && !IsTypeLine(file[i]) ::
           exists b :: i < b < open && Separates(file[b])
  }

  /** The body ends before line end: where, strings and comments aside, as many braces are closed as
      opened; or at 6000 characters or the end of the file. */
  ghost predicate BodyEnds(file: seq<string>, h: nat, open: nat, end: nat) {
    && h <= open < |file| && h < end <= |file|
    && (forall i | open < i < end :: Excess(StrippedText(file, open, i)) > 0)
    && (forall i | h < i < end :: |Lines(file[h..i])| < 6000)
    && (|| end == |file| || |Lines(file[h..end])| >= 6000
        || (open < end && Excess(StrippedText(file, open, end)) <= 0))
  }

  lemma SignatureMeans(file: seq<string>, open: nat, h: nat)
    requires open < |file|
    ensures SignatureBegins(file, open, h) <==> IsSignature(file, open, h)
  {
    LinesMean(file);
    if IsSignature(file, open, h) && h == open {
      forall i | 0 <= i < open && open <= i + 8 && IsDeclaration(file[i]) && !IsTypeLine(file[i])
        ensures exists b :: i < b < open && Separates(file[b])
      {
        assert BeginsSignature(file[i]);
        var b :| i < b < open && Boundary(file[b]);
        assert Separates(file[b]);
      }
    }
    if SignatureBegins(file, open, h) && h == open {
      forall i | 0 <= i < open && open <= i + SCAN_BACK && BeginsSignature(file[i])
        ensures exists b :: i < b < open && Boundary(file[b])
      {
        var b :| i < b < open && Separates(file[b]);
        assert Boundary(file[b]);
      }
    }
  }

  lemma EndMeans(file: seq<string>, h: nat, open: nat, end: nat)
    requires h <= open < |file|
    ensures BodyEnds(file, h, open, end) <==> RunEnds(file, h, open, end)
  {
    if h < end <= |file| {
      forall i | open < i <= end ensures ClosedBy(file, open, i) <==> Excess(StrippedText(file, open, i)) <= 0 {
        DepthIsExcess(file, open, i);
      }
    }
  }

  /** From the opening line found, the rest follows. */
  lemma ReadFrom(file: seq<string>, start: nat, name: string, origin: Origin, body: string, open: nat, h: nat, end: nat)
    requires start < |file| && TakenFrom(file, start, name, origin, body)
    requires open < |file| && Opens(file, start, name, Some(open))
    requires SignatureBegins(file, open, h) && BodyEnds(file, h, open, end)
    ensures origin == BraceRun(h, open, end) && body == TrimSpace(Lines(file[h..end]))
  {
    SignatureMeans(file, open, h);
    EndMeans(file, h, open, end);
    var expected := OrLine(Lines(file[h..end]), file[h]);
    assert TakenFrom(file, start, name, BraceRun(h, open, end), expected);
    BodyIsDetermined(file, start, name, origin, body, BraceRun(h, open, end), expected);
    BraceRunIsTrimmed(file, start, name, origin, body);
  }

  // ---- Which method is read ---------------------------------------------------------------------

  /** The first line that can open something, among ten from the given one on, is a method's. */
  lemma MethodIsRead(file: seq<string>, start: nat, name: string, origin: Origin, body: string, open: nat, h: nat, end: nat)
    requires start < |file| && TakenFrom(file, start, name, origin, body)
    requires start <= open < start + 10 && open < |file| && OpensCode(file[open]) && !IsTypeLine(file[open])
    requires forall i | start <= i < open :: !OpensAny(file[i])
    requires open == start || !IsDeclaration(file[open]) || HasSuffix(TrimSpace(file[start]), "}")
    requires SignatureBegins(file, open, h) && BodyEnds(file, h, open, end)
    ensures origin == BraceRun(h, open, end) && body == TrimSpace(Lines(file[h..end]))
  {
    LinesMean(file);
    OpensAt(file, start, open, Some(open));
    ReadFrom(file, start, name, origin, body, open, h, end);
  }

  /** It is a type's: its first declared method within thirty lines is read. */
  lemma FirstMethodOfTypeIsRead(file: seq<string>, start: nat, name: string, origin: Origin, body: string,
                                line: nat, open: nat, h: nat, end: nat)
    requires start < |file| && TakenFrom(file, start, name, origin, body)
    requires start <= line < start + 10 && line < |file| && OpensAny(file[line]) && IsTypeLine(file[line])
    requires forall i | start <= i < line :: !OpensAny(file[i])
    requires line == start || !IsDeclaration(file[line]) || HasSuffix(TrimSpace(file[start]), "}")
    requires line < open < line + 30 && open < |file| && OpensDeclared(file[open])
    requires forall i | line < i < open :: !OpensDeclared(file[i])
    requires SignatureBegins(file, open, h) && BodyEnds(file, h, open, end)
    ensures origin == BraceRun(h, open, end) && body == TrimSpace(Lines(file[h..end]))
  {
    LinesMean(file);
    assert IsFirst(file, line + 1, Least(line + SCAN_CLASS, |file|), OpensMethod, Some(open));
    OpensAt(file, start, line, Some(open));
    ReadFrom(file, start, name, origin, body, open, h, end);
  }

  lemma OpensAt(file: seq<string>, start: nat, line: nat, open: Option<nat>)
    requires start <= line < Least(start + SCAN_AHEAD, |file|) && OpensBodyOrClass(file[line])
    requires forall i | start <= i < line :: !OpensBodyOrClass(file[i])
    requires Chosen(file, start, Some(line), open)
    ensures OpensNear(file, start, open)
  {
    assert IsFirst(file, start, Least(start + SCAN_AHEAD, |file|), OpensBodyOrClass, Some(line));
  }

  /** Nothing is opened near the given line: none of ten lines opens anything; or the first that does
      is the next method's declaration; or it is a type's without a method within thirty lines. */
  ghost predicate NothingNear(file: seq<string>, start: nat)
    requires start < |file|
  {
    || (forall i | start <= i < start + 10 && i < |file| :: !OpensAny(file[i]))
    || (exists line :: NearestIs(file, start, line) && OpensAnother(file, start, line))
  }

  ghost predicate OpensAnother(file: seq<string>, start: nat, line: int)
    requires start < |file| && 0 <= line < |file|
  {
    || (line != start && IsDeclaration(file[line]) && !HasSuffix(TrimSpace(file[start]), "}"))
    || (IsTypeLine(file[line]) && forall i | line < i < line + 30 && i < |file| :: !OpensDeclared(file[i]))
  }

  ghost predicate NearestIs(file: seq<string>, start: nat, line: int) {
    && start <= line < start + 10 && line < |file| && OpensAny(file[line])
    && forall i | start <= i < line :: !OpensAny(file[i])
  }

  lemma NothingNearMeans(file: seq<string>, start: nat)
    requires start < |file| && NothingNear(file, start)
    ensures OpensNear(file, start, None)
  {
    LinesMean(file);
    if line :| NearestIs(file, start, line) && OpensAnother(file, start, line) {
      OpensAt(file, start, line, None);
    } else {
      assert IsFirst(file, start, Least(start + SCAN_AHEAD, |file|), OpensBodyOrClass, None);
      assert Chosen(file, start, None, None);
    }
  }

  /** The first declaration of the method, with its opening line among ten. */
  ghost predicate DeclaredAt(file: seq<string>, name: string, line: nat, open: nat) {
    && line <= open < line + 10 && open < |file| && DeclaresMethod(file[line], name) && OpensCode(file[open])
    && (forall i | line <= i < open :: !OpensCode(file[i]))
  }

  ghost predicate NotDeclaredBefore(file: seq<string>, name: string, line: nat)
    requires line <= |file|
  {
    forall i, j | 0 <= i < line && i <= j < i + 10 && j < |file| && DeclaresMethod(file[i], name) :: !OpensCode(file[j])
  }

  lemma NotDeclaredMeans(file: seq<string>, name: string, line: nat)
    requires line <= |file| && NotDeclaredBefore(file, name, line)
    ensures NoneBefore(file, name, line)
  {
    LinesMean(file);
    forall i | 0 <= i < line && Declares(file[i], name) ensures OpensFrom(file, name, i, None) {
      LineMeans(file[i]);
    }
  }

  lemma OpensNamed(file: seq<string>, name: string, line: nat, open: nat)
    requires DeclaredAt(file, name, line, open) && NotDeclaredBefore(file, name, line)
    ensures OpensByName(file, name, Some(open))
  {
    NotDeclaredMeans(file, name, line);
    LinesMean(file);
    LineMeans(file[line]);
    assert OpensFrom(file, name, line, Some(open));
  }

  /** Then the method is read by its name: its first declaration that is opened within ten lines. */
  lemma MethodIsReadByName(file: seq<string>, start: nat, name: string, origin: Origin, body: string,
                           line: nat, open: nat, h: nat, end: nat)
    requires start < |file| && TakenFrom(file, start, name, origin, body)
    requires NothingNear(file, start) && name != ""
    requires DeclaredAt(file, name, line, open) && NotDeclaredBefore(file, name, line)
    requires SignatureBegins(file, open, h) && BodyEnds(file, h, open, end)
    ensures origin == BraceRun(h, open, end) && body == TrimSpace(Lines(file[h..end]))
  {
    NothingNearMeans(file, start);
    OpensNamed(file, name, line, open);
    ReadFrom(file, start, name, origin, body, open, h, end);
  }

  /** Or, without a name or an opened declaration of it, at most twenty lines from the given one on,
      up to the next declaration. */
  lemma WindowIsRead(file: seq<string>, start: nat, name: string, origin: Origin, body: string, end: nat)
    requires start < |file| && TakenFrom(file, start, name, origin, body)
    requires NothingNear(file, start) && (name == "" || NotDeclaredBefore(file, name, |file|))
    requires start < end <= |file| && end <= start + 20
    requires forall i | start < i < end :: !IsDeclaration(file[i]) && |Lines(file[start..i])| < 6000
    requires end == |file| || end == start + 20 || IsDeclaration(file[end]) || |Lines(file[start..end])| >= 6000
    ensures origin == Window(start, end)
    ensures !Blank(Lines(file[start..end])) ==> body == TrimSpace(Lines(file[start..end]))
  {
    NothingNearMeans(file, start);
    if name != "" {
      NotDeclaredMeans(file, name, |file|);
    }
    LinesMean(file);
    assert WindowEnds(file, start, end);
    var expected := OrLine(Lines(file[start..end]), file[start]);
    assert TakenFrom(file, start, name, Window(start, end), expected);
    BodyIsDetermined(file, start, name, origin, body, Window(start, end), expected);
    TrimSpaceBlank(Lines(file[start..end]));
  }
}
