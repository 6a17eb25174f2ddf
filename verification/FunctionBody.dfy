/** Reading a function's source text from a line number that may be off
    (internal/semantic/enrichment/enrichment.go). Strings stand for their bytes. */
module FunctionBody {
  import opened Findings
  import opened Text

  const MAX_BODY := 6000
  const MAX_LINE := 300
  const SCAN_AHEAD := 10
  const SCAN_CLASS := 30
  const SCAN_BACK := 8
  const WINDOW := 20

  // ---- Lines without strings and comments -------------------------------------------------------

  function CutComment(line: string): string {
    var i := Index(line, "//");
    if 0 <= i <= |line| then line[..i] else line
  }

  /** s with the contents of its string literals left out; inStr says that s begins inside one. */
  function StripStrings(s: string, inStr: bool): string {
    if s == "" then ""
    else if s[0] == '\\' && inStr then if |s| == 1 then "" else StripStrings(s[2..], true)
    else if s[0] == '"' then "\"" + StripStrings(s[1..], !inStr)
    else if inStr then StripStrings(s[1..], true)
    else [s[0]] + StripStrings(s[1..], false)
  }

  function Strip(line: string): string {
    StripStrings(CutComment(line), false)
  }

  /** What StripStrings makes of s from position i on; an escape may have skipped past the end. */
  function StripFrom(s: string, i: nat, inStr: bool): string {
    if i <= |s| then StripStrings(s[i..], inStr) else ""
  }

  lemma StripStep(s: string, i: nat, inStr: bool)
    requires i < |s|
    ensures StripFrom(s, i, inStr) ==
      if s[i] == '\\' && inStr then StripFrom(s, i + 2, true)
      else if s[i] == '"' then [s[i]] + StripFrom(s, i + 1, !inStr)
      else if inStr then StripFrom(s, i + 1, true)
      else [s[i]] + StripFrom(s, i + 1, false)
  {
    assert s[i..][1..] == s[i + 1..];
    assert i + 2 <= |s| ==> s[i..][2..] == s[i + 2..];
  }

  lemma Regroup(r: string, c: char, rest: string)
    ensures r + ([c] + rest) == (r + [c]) + rest
  {
  }

  method StripStringsAndComments(line: string) returns (r: string)
    ensures r == Strip(line)
  {
    var s := CutComment(line);
    r := "";
    var inStr, i := false, 0;
    while i < |s|
      invariant 0 <= i && r + StripFrom(s, i, inStr) == StripStrings(s, false)
    {
      var ch := s[i];
      StripStep(s, i, inStr);
      if ch == '\\' && inStr {
        i := i + 2;
      } else if ch == '"' {
        Regroup(r, ch, StripFrom(s, i + 1, !inStr));
        inStr := !inStr;
        r := r + [ch];
        i := i + 1;
      } else {
        if !inStr {
          Regroup(r, ch, StripFrom(s, i + 1, inStr));
          r := r + [ch];
        }
        i := i + 1;
      }
    }
    assert r + "" == r;
  }

  /** A source line: code without double quotes, string literals of plain and escaped characters,
      and character literals that hold a double quote, plain or escaped. */
  datatype Token = Code(text: string) | Literal(chars: seq<LiteralChar>) | Quote(escaped: bool)

  datatype LiteralChar = Raw(c: char) | Escaped(c: char)

  predicate WellFormed(t: Token) {
    match t
    case Code(text) => '"' !in text
    case Literal(chars) => forall c | c in chars :: c.Raw? ==> c.c != '"' && c.c != '\\'
    case Quote(_) => true
  }

  /** Well-formed and without a quote in a character literal. */
  predicate Simple(tokens: seq<Token>) {
    forall t | t in tokens :: WellFormed(t) && !t.Quote?
  }

  function RenderChars(chars: seq<LiteralChar>): string {
    if chars == [] then ""
    else (if chars[0].Raw? then [chars[0].c] else ['\\', chars[0].c]) + RenderChars(chars[1..])
  }

  /** A character literal up to its quote. */
  function BeforeQuote(escaped: bool): string {
    if escaped then "'\\" else "'"
  }

  function RenderToken(t: Token): string {
    match t
    case Code(text) => text
    case Literal(chars) => "\"" + RenderChars(chars) + "\""
    case Quote(escaped) => BeforeQuote(escaped) + "\"" + "'"
  }

  function Render(tokens: seq<Token>): string {
    if tokens == [] then "" else RenderToken(tokens[0]) + Render(tokens[1..])
  }

  /** The code with every string literal emptied. */
  function Emptied(tokens: seq<Token>): string {
    if tokens == [] then ""
    else (if tokens[0].Literal? then "\"\"" else RenderToken(tokens[0])) + Emptied(tokens[1..])
  }

  lemma {:induction false} StripCode(text: string, rest: string)
    requires '"' !in text
    ensures StripStrings(text + rest, false) == text + StripStrings(rest, false)
  {
    if text == "" {
      assert text + rest == rest;
    } else {
      StripCode(text[1..], rest);
      assert (text + rest)[0] == text[0] && (text + rest)[1..] == text[1..] + rest;
    }
  }

  lemma {:induction false} StripLiteral(chars: seq<LiteralChar>, rest: string)
    requires forall c | c in chars :: c.Raw? ==> c.c != '"' && c.c != '\\'
    ensures StripStrings(RenderChars(chars) + "\"" + rest, true) == "\"" + StripStrings(rest, false)
  {
    var s := RenderChars(chars) + "\"" + rest;
    if chars == [] {
      assert s[1..] == rest;
    } else {
      StripLiteral(chars[1..], rest);
      assert chars[0] in chars;
      var others := RenderChars(chars[1..]) + "\"" + rest;
      if chars[0].Raw? {
        assert s == [chars[0].c] + others;
      } else {
        assert s == ['\\', chars[0].c] + others;
      }
    }
  }

  lemma StripQuoted(chars: seq<LiteralChar>, rest: string)
    requires forall c | c in chars :: c.Raw? ==> c.c != '"' && c.c != '\\'
    ensures StripStrings("\"" + RenderChars(chars) + "\"" + rest, false) == "\"\"" + StripStrings(rest, false)
  {
    var s := "\"" + RenderChars(chars) + "\"" + rest;
    assert s[1..] == RenderChars(chars) + "\"" + rest;
    StripLiteral(chars, rest);
  }

  lemma Associate(a: string, b: string, c: string)
    ensures a + b + c == a + (b + c)
  {
  }

  /** Whole tokens are stripped to the emptied code, whatever follows. */
  lemma {:induction false} StripTokens(tokens: seq<Token>, rest: string)
    requires Simple(tokens)
    ensures StripStrings(Render(tokens) + rest, false) == Emptied(tokens) + StripStrings(rest, false)
  {
    if tokens == [] {
      assert "" + rest == rest && "" + StripStrings(rest, false) == StripStrings(rest, false);
    } else {
      var others := Render(tokens[1..]);
      StripTokens(tokens[1..], rest);
      assert WellFormed(tokens[0]) && !tokens[0].Quote? by {
        assert tokens[0] in tokens;
      }
      match tokens[0]
      case Code(text) =>
        Associate(text, others, rest);
        StripCode(text, others + rest);
        Associate(text, Emptied(tokens[1..]), StripStrings(rest, false));
      case Literal(chars) =>
        Associate("\"" + RenderChars(chars) + "\"", others, rest);
        StripQuoted(chars, others + rest);
        Associate("\"\"", Emptied(tokens[1..]), StripStrings(rest, false));
    }
  }

  /** Nothing is left of any beginning of a literal's contents, even one cut within an escape. */
  lemma {:induction false} StripInside(chars: seq<LiteralChar>, cut: nat)
    requires forall c | c in chars :: c.Raw? ==> c.c != '"' && c.c != '\\'
    requires cut <= |RenderChars(chars)|
    ensures StripStrings(RenderChars(chars)[..cut], true) == ""
  {
    if chars != [] && cut > 0 {
      var head, tail := if chars[0].Raw? then [chars[0].c] else ['\\', chars[0].c], RenderChars(chars[1..]);
      assert chars[0] in chars && RenderChars(chars) == head + tail;
      if cut >= |head| {
        assert (head + tail)[..cut] == head + tail[..cut - |head|];
        assert (head + tail[..cut - |head|])[|head|..] == tail[..cut - |head|];
        StripInside(chars[1..], cut - |head|);
      }
    }
  }

  /** The same with the literal's opening quote. */
  lemma StripOpened(chars: seq<LiteralChar>, cut: nat)
    requires forall c | c in chars :: c.Raw? ==> c.c != '"' && c.c != '\\'
    requires cut <= |RenderChars(chars)|
    ensures StripStrings("\"" + RenderChars(chars)[..cut], false) == "\""
  {
    assert ("\"" + RenderChars(chars)[..cut])[1..] == RenderChars(chars)[..cut];
    StripInside(chars, cut);
  }

  /** Rendered code that is cut short is stripped to less than the emptied code. */
  lemma {:induction false} CutCodeIsShorter(tokens: seq<Token>, cut: nat)
    requires Simple(tokens)
    requires cut < |Render(tokens)|
    ensures |StripStrings(Render(tokens)[..cut], false)| < |Emptied(tokens)|
  {
    var others := Render(tokens[1..]);
    assert WellFormed(tokens[0]) && !tokens[0].Quote? by {
      assert tokens[0] in tokens;
    }
    match tokens[0]
    case Code(text) =>
      if cut < |text| {
        assert Render(tokens)[..cut] == text[..cut] + "";
        StripCode(text[..cut], "");
      } else {
        assert Render(tokens)[..cut] == text + others[..cut - |text|];
        StripCode(text, others[..cut - |text|]);
        CutCodeIsShorter(tokens[1..], cut - |text|);
      }
    case Literal(chars) =>
      CutLiteralIsShorter(chars, others, cut);
      var n := |RenderChars(chars)| + 2;
      if cut >= n {
        CutCodeIsShorter(tokens[1..], cut - n);
      }
  }

  lemma CutLiteralIsShorter(chars: seq<LiteralChar>, others: string, cut: nat)
    requires forall c | c in chars :: c.Raw? ==> c.c != '"' && c.c != '\\'
    requires cut <= |RenderChars(chars)| + 2 + |others|
    ensures var n := |RenderChars(chars)| + 2;
      |StripStrings(("\"" + RenderChars(chars) + "\"" + others)[..cut], false)|
      == if cut == 0 then 0 else if cut < n then 1 else 2 + |StripStrings(others[..cut - n], false)|
  {
    var quoted := "\"" + RenderChars(chars) + "\"";
    var s := (quoted + others)[..cut];
    if cut >= |quoted| {
      assert s == quoted + others[..cut - |quoted|];
      StripQuoted(chars, others[..cut - |quoted|]);
    } else if cut > 0 {
      assert s == "\"" + RenderChars(chars)[..cut - 1];
      StripOpened(chars, cut - 1);
    }
  }

  /** The first // of the line, if any, is where the comment begins. */
  ghost predicate NoSlashesBefore(code: string, comment: string) {
    forall j: nat | j < |code| :: !At(code + comment, "//", j)
  }

  /** Exactly the code is left, with its string literals emptied, exactly if the line's first // is
      not within its code and literals and no character literal holds a double quote. */
  lemma StripKeepsCodeExactlyWhen(tokens: seq<Token>, comment: string)
    requires forall t | t in tokens :: WellFormed(t)
    requires comment == "" || HasPrefix(comment, "//")
    ensures Strip(Render(tokens) + comment) == Emptied(tokens)
       <==> NoSlashesBefore(Render(tokens), comment) && Simple(tokens)
  {
    if Simple(tokens) {
      SimpleIsKeptExactlyWhen(tokens, comment);
    } else {
      var line := Render(tokens) + comment;
      var cut := Index(line, "//");
      QuoteIsNotKept(tokens, comment, if 0 <= cut <= |line| then cut else |line|);
      assert line[..|line|] == line;
    }
  }

  lemma SimpleIsKeptExactlyWhen(tokens: seq<Token>, comment: string)
    requires Simple(tokens) && (comment == "" || HasPrefix(comment, "//"))
    ensures Strip(Render(tokens) + comment) == Emptied(tokens) <==> NoSlashesBefore(Render(tokens), comment)
  {
    var code := Render(tokens);
    var line := code + comment;
    if !NoSlashesBefore(code, comment) {
      var j: nat :| j < |code| && At(line, "//", j);
      IndexAtMost(line, "//", j);
      var cut := Index(line, "//");
      assert line[..cut] == code[..cut];
      CutCodeIsShorter(tokens, cut);
    } else {
      CommentIsCut(code, comment);
      StripTokens(tokens, "");
      assert code + "" == code && Emptied(tokens) + "" == Emptied(tokens);
    }
  }

  /** Within a literal, what is kept first is its closing quote. */
  lemma {:induction false} InsideBeginsWithQuote(s: string)
    ensures StripStrings(s, true) == "" || StripStrings(s, true)[0] == '"'
  {
    if s != "" && s[0] == '\\' {
      if |s| > 1 {
        InsideBeginsWithQuote(s[2..]);
      }
    } else if s != "" && s[0] != '"' {
      InsideBeginsWithQuote(s[1..]);
    }
  }

  /** A quote in a character literal opens a string: of the literal's three or four characters the
      last is not kept, wherever the line is cut. */
  lemma StripQuote(escaped: bool, rest: string, cut: nat)
    requires cut <= |BeforeQuote(escaped)| + 2 + |rest|
    ensures !HasPrefix(StripStrings((BeforeQuote(escaped) + "\"" + "'" + rest)[..cut], false),
                       BeforeQuote(escaped) + "\"" + "'")
  {
    var before := BeforeQuote(escaped);
    var s := (before + "\"" + "'" + rest)[..cut];
    if cut <= |before| {
      assert s == before[..cut] + "";
      StripCode(before[..cut], "");
    } else {
      var inside := ("'" + rest)[..cut - |before| - 1];
      assert s == before + ("\"" + inside);
      StripCode(before, "\"" + inside);
      assert ("\"" + inside)[1..] == inside;
      InsideBeginsWithQuote(inside);
      var kept := before + ("\"" + StripStrings(inside, true));
      assert StripStrings(s, false) == kept;
      assert (before + "\"" + "'")[|before| + 1] == '\'';
      assert |kept| > |before| + 1 ==> kept[|before| + 1] == '"';
    }
  }

  lemma OneToken(tokens: seq<Token>)
    requires tokens != []
    ensures Render([tokens[0]]) == RenderToken(tokens[0])
    ensures Emptied(tokens) == Emptied([tokens[0]]) + Emptied(tokens[1..])
  {
    assert RenderToken(tokens[0]) + "" == RenderToken(tokens[0]);
  }

  lemma StripOneToken(t: Token, others: string, cut: nat)
    requires Simple([t]) && Render([t]) == RenderToken(t) && cut <= |RenderToken(t)| + |others|
    ensures var head, kept := RenderToken(t), StripStrings((RenderToken(t) + others)[..cut], false);
      if cut < |head| then |kept| < |Emptied([t])|
      else kept == Emptied([t]) + StripStrings(others[..cut - |head|], false)
  {
    var head := RenderToken(t);
    if cut < |head| {
      assert (head + others)[..cut] == head[..cut];
      CutCodeIsShorter([t], cut);
    } else {
      assert (head + others)[..cut] == head + others[..cut - |head|];
      StripTokens([t], others[..cut - |head|]);
    }
  }

  /** However the line is cut, a quote in a character literal is not kept. */
  lemma {:induction false} QuoteIsNotKept(tokens: seq<Token>, rest: string, cut: nat)
    requires (forall t | t in tokens :: WellFormed(t)) && !Simple(tokens)
    requires cut <= |Render(tokens) + rest|
    ensures StripStrings((Render(tokens) + rest)[..cut], false) != Emptied(tokens)
  {
    var head, others := RenderToken(tokens[0]), Render(tokens[1..]) + rest;
    assert Render(tokens) + rest == head + others;
    if tokens[0].Quote? {
      StripQuote(tokens[0].escaped, others, cut);
      assert HasPrefix(Emptied(tokens), head);
    } else {
      OneToken(tokens);
      StripOneToken(tokens[0], others, cut);
      if cut >= |head| {
        var after := others[..cut - |head|];
        QuoteIsNotKept(tokens[1..], rest, cut - |head|);
        SamePrefix(Emptied([tokens[0]]), StripStrings(after, false), Emptied(tokens[1..]));
      }
    }
  }

  lemma SamePrefix(prefix: string, a: string, b: string)
    requires a != b
    ensures prefix + a != prefix + b
  {
    assert (prefix + a)[|prefix|..] == a && (prefix + b)[|prefix|..] == b;
  }

  lemma CommentIsCut(code: string, comment: string)
    requires comment == "" || HasPrefix(comment, "//")
    requires NoSlashesBefore(code, comment)
    ensures CutComment(code + comment) == code
  {
    var line := code + comment;
    if comment == "" {
      assert line == code;
      IndexOfAbsent(line, "//");
    } else {
      assert line[|code|..|code| + 2] == comment[..2];
      IndexIsFirst(line, "//", |code|);
    }
  }

  /** A literal with // in it hides all that follows, braces included: behind any whole tokens, of
      the literal that the line's first // cuts only the opening quote is left. */
  lemma SlashesInALiteralHideTheRest(tokens: seq<Token>, chars: seq<LiteralChar>, cut: nat, rest: string)
    requires Simple(tokens) && WellFormed(Literal(chars))
    requires cut <= |RenderChars(chars)| && HasPrefix(rest, "//")
    requires NoSlashesBefore(Render(tokens) + ("\"" + RenderChars(chars)[..cut]), rest)
    ensures Strip(Render(tokens) + ("\"" + RenderChars(chars)[..cut]) + rest) == Emptied(tokens) + "\""
  {
    var begun := "\"" + RenderChars(chars)[..cut];
    CommentIsCut(Render(tokens) + begun, rest);
    StripTokens(tokens, begun);
    StripOpened(chars, cut);
  }

  lemma {:induction false} NothingInside(s: string)
    requires '"' !in s
    ensures StripStrings(s, true) == ""
  {
    if |s| > 1 && s[0] == '\\' {
      NothingInside(s[2..]);
    } else if s != "" && s[0] != '\\' {
      NothingInside(s[1..]);
    }
  }

  /** So does a quote in a character literal: without a further one, all that follows is hidden. */
  lemma QuoteInACharacterHidesTheRest(tokens: seq<Token>, escaped: bool, rest: string)
    requires Simple(tokens) && '"' !in rest
    requires NoSlashesBefore(Render(tokens) + (BeforeQuote(escaped) + ("\"" + ("'" + rest))), "")
    ensures Strip(Render(tokens) + (BeforeQuote(escaped) + ("\"" + ("'" + rest))))
         == Emptied(tokens) + (BeforeQuote(escaped) + "\"")
  {
    var inside := "'" + rest;
    var quoted := BeforeQuote(escaped) + ("\"" + inside);
    var line := Render(tokens) + quoted;
    CommentIsCut(line, "");
    assert line + "" == line;
    StripTokens(tokens, quoted);
    StripCode(BeforeQuote(escaped), "\"" + inside);
    assert ("\"" + inside)[1..] == inside;
    NothingInside(inside);
  }

  // ---- What a line looks like -------------------------------------------------------------------

  predicate MethodLike(line: string) {
    HasPrefix(line, "private ") || HasPrefix(line, "public ") || HasPrefix(line, "protected ")
    || HasPrefix(line, "static ") || HasPrefix(line, "@")
  }

  predicate ClassLike(line: string) {
    Contains(line, " class ") || Contains(line, " interface ") || Contains(line, " enum ") || Contains(line, " @interface ")
  }

  /** strings.TrimRight(s, " \t") */
  function TrimTail(s: string): string {
    if s != "" && s[|s| - 1] in {' ', '\t'} then TrimTail(s[..|s| - 1]) else s
  }

  predicate EndsWithBrace(line: string) {
    HasSuffix(TrimTail(Strip(line)), "{")
  }

  predicate OpensBody(line: string) {
    EndsWithBrace(line) && (Contains(TrimTail(Strip(line)), ")") || TrimSpace(line) == "{")
  }

  predicate OpensBodyOrClass(line: string) {
    OpensBody(line) || (EndsWithBrace(line) && ClassLike(TrimSpace(line)))
  }

  predicate OpensMethod(line: string) {
    MethodLike(TrimSpace(line)) && Contains(Strip(line), "{")
  }

  predicate Declares(line: string, name: string) {
    Contains(TrimSpace(line), name + "(") && MethodLike(TrimSpace(line))
  }

  /** A line that can begin a signature: a method-like one that is no class. */
  predicate BeginsSignature(line: string) {
    MethodLike(TrimSpace(line)) && !ClassLike(TrimSpace(line))
  }

  /** A line that no signature reaches across. */
  predicate Boundary(line: string) {
    var trimmed := TrimSpace(TrimTail(Strip(line)));
    trimmed == "}" || trimmed == "};" || EndsWithBrace(line)
  }

  // ---- Where the body is ------------------------------------------------------------------------

  /** at is the first of the lines lo to hi - 1 that passes the test. */
  ghost predicate IsFirst(lines: seq<string>, lo: nat, hi: nat, test: string -> bool, at: Option<nat>)
    requires hi <= |lines|
  {
    match at
    case Some(i) => lo <= i < hi && test(lines[i]) && forall j | lo <= j < i :: !test(lines[j])
    case None => forall j | lo <= j < hi :: !test(lines[j])
  }

  method FirstLine(lines: seq<string>, lo: nat, hi: nat, test: string -> bool) returns (at: Option<nat>)
    requires hi <= |lines|
    ensures IsFirst(lines, lo, hi, test, at)
  {
    var i := lo;
    while i < hi
      invariant forall j | lo <= j < i && j < hi :: !test(lines[j])
    {
      if test(lines[i]) {
        return Some(i);
      }
      i := i + 1;
    }
    return None;
  }

  function Least(a: nat, b: nat): nat {
    if a < b then a else b
  }

  /** The line the search starts from: the given one or, beyond the end of the file, the method's
      declaration. */
  method StartOf(lines: seq<string>, startLine: int, methodName: string) returns (start: Option<nat>)
    ensures 0 < startLine <= |lines| ==> start == Some(startLine - 1)
    ensures startLine <= 0 || (startLine > |lines| && methodName == "") ==> start == None
    ensures startLine > |lines| && methodName != "" ==> IsFirst(lines, 0, |lines|, line => Declares(line, methodName), start)
  {
    if 0 < startLine <= |lines| {
      return Some(startLine - 1);
    }
    if startLine > |lines| && methodName != "" {
      start := FirstLine(lines, 0, |lines|, line => Declares(line, methodName));
      return;
    }
    return None;
  }

  /** The signature is the nearest line above the opening one, at most 8 away, that can begin one,
      unless a boundary is nearer; without one it is the opening line itself. */
  ghost predicate IsSignature(lines: seq<string>, open: nat, sig: nat)
    requires open < |lines|
  {
    && sig <= open <= sig + SCAN_BACK
    && (sig < open ==> BeginsSignature(lines[sig]) &&
                       forall i | sig < i < open :: !BeginsSignature(lines[i]) && !Boundary(lines[i]))
    && (sig == open ==> forall i | 0 <= i < open && open <= i + SCAN_BACK && BeginsSignature(lines[i]) ::
                          exists b :: i < b < open && Boundary(lines[b]))
  }

  method SignatureOf(lines: seq<string>, open: nat) returns (sig: nat)
    requires open < |lines|
    ensures IsSignature(lines, open, sig)
  {
    var i := open;
    while i > 0 && i + SCAN_BACK > open
      invariant 0 <= i <= open <= i + SCAN_BACK
      invariant forall j | i <= j < open :: !BeginsSignature(lines[j]) && !Boundary(lines[j])
    {
      if BeginsSignature(lines[i - 1]) {
        return i - 1;
      }
      if Boundary(lines[i - 1]) {
        return open;
      }
      i := i - 1;
    }
    return open;
  }

  /** A method-like line below the given one is the next method's, unless the given line closes
      the one before. */
  predicate NextMethod(lines: seq<string>, start: nat, i: nat)
    requires start < |lines| && i < |lines|
  {
    i != start && MethodLike(TrimSpace(lines[i])) && !HasSuffix(TrimSpace(lines[start]), "}")
  }

  /** The opening line found near the start: a class's opening line stands for its first method's. */
  ghost predicate OpensNear(lines: seq<string>, start: nat, open: Option<nat>)
    requires start < |lines|
  {
    exists first ::
      IsFirst(lines, start, Least(start + SCAN_AHEAD, |lines|), OpensBodyOrClass, first) && Chosen(lines, start, first, open)
  }

  ghost predicate Chosen(lines: seq<string>, start: nat, first: Option<nat>, open: Option<nat>)
    requires start < |lines| && (first.Some? ==> first.value < |lines|)
  {
    if first == None || NextMethod(lines, start, first.value) then open == None
    else if ClassLike(TrimSpace(lines[first.value])) then
      IsFirst(lines, first.value + 1, Least(first.value + SCAN_CLASS, |lines|), OpensMethod, open)
    else open == first
  }

  method FindNear(lines: seq<string>, start: nat) returns (open: Option<nat>)
    requires start < |lines|
    ensures OpensNear(lines, start, open)
  {
    var first := FirstLine(lines, start, Least(start + SCAN_AHEAD, |lines|), OpensBodyOrClass);
    if first == None || NextMethod(lines, start, first.value) {
      open := None;
    } else if ClassLike(TrimSpace(lines[first.value])) {
      open := FirstLine(lines, first.value + 1, Least(first.value + SCAN_CLASS, |lines|), OpensMethod);
    } else {
      open := first;
    }
    assert Chosen(lines, start, first, open);
  }

  /** Line i declares the method and open is the first opening line from it on. */
  ghost predicate OpensFrom(lines: seq<string>, methodName: string, i: nat, open: Option<nat>)
    requires i < |lines|
  {
    Declares(lines[i], methodName) && IsFirst(lines, i, Least(i + SCAN_AHEAD, |lines|), OpensBody, open)
  }

  /** The opening line of the first declaration that has one nearby. */
  ghost predicate OpensByName(lines: seq<string>, methodName: string, open: Option<nat>) {
    match open
    case Some(_) => exists i :: 0 <= i < |lines| && OpensFrom(lines, methodName, i, open) && NoneBefore(lines, methodName, i)
    case None => NoneBefore(lines, methodName, |lines|)
  }

  ghost predicate NoneBefore(lines: seq<string>, methodName: string, n: nat)
    requires n <= |lines|
  {
    forall j | 0 <= j < n && Declares(lines[j], methodName) :: OpensFrom(lines, methodName, j, None)
  }

  method FindByName(lines: seq<string>, methodName: string) returns (open: Option<nat>)
    ensures OpensByName(lines, methodName, open)
  {
    for i := 0 to |lines|
      invariant NoneBefore(lines, methodName, i)
    {
      if Declares(lines[i], methodName) {
        open := FirstLine(lines, i, Least(i + SCAN_AHEAD, |lines|), OpensBody);
        assert OpensFrom(lines, methodName, i, open);
        if open.Some? {
          return;
        }
      }
    }
    return None;
  }

  lemma OpeningLineHasBrace(lines: seq<string>, start: nat, methodName: string, open: nat)
    requires start < |lines|
    requires OpensNear(lines, start, Some(open)) || OpensByName(lines, methodName, Some(open))
    ensures open < |lines| && '{' in Strip(lines[open])
  {
    if OpensNear(lines, start, Some(open)) {
      var first :| IsFirst(lines, start, Least(start + SCAN_AHEAD, |lines|), OpensBodyOrClass, first)
                   && Chosen(lines, start, first, Some(open));
      assert OpensBodyOrClass(lines[open]) || OpensMethod(lines[open]);
    } else {
      var i :| 0 <= i < |lines| && OpensFrom(lines, methodName, i, Some(open)) && NoneBefore(lines, methodName, i);
      assert OpensBody(lines[open]);
    }
    if EndsWithBrace(lines[open]) {
      TrimTailIsPrefix(Strip(lines[open]));
    } else {
      ContainsBrace(Strip(lines[open]));
    }
  }

  lemma ContainsBrace(s: string)
    requires Contains(s, "{")
    ensures '{' in s
  {
    var i :| 0 <= i <= |s| && At(s, "{", i);
    assert s[i] == s[i..i + 1][0];
  }

  lemma {:induction false} TrimTailIsPrefix(s: string)
    ensures |TrimTail(s)| <= |s| && TrimTail(s) == s[..|TrimTail(s)|]
    ensures HasSuffix(TrimTail(s), "{") ==> '{' in s
  {
    if s != "" && s[|s| - 1] in {' ', '\t'} {
      TrimTailIsPrefix(s[..|s| - 1]);
    } else if HasSuffix(s, "{") {
      assert s[|s| - 1..][0] == '{';
    }
  }

  // ---- The text of the body ---------------------------------------------------------------------

  /** The lines, each with its line end. */
  function Lines(lines: seq<string>): string {
    if lines == [] then "" else Lines(lines[..|lines| - 1]) + lines[|lines| - 1] + "\n"
  }

  /** Opening minus closing braces. */
  function Braces(s: string): int {
    if s == "" then 0
    else Braces(s[..|s| - 1]) + (if s[|s| - 1] == '{' then 1 else if s[|s| - 1] == '}' then -1 else 0)
  }

  /** The depth after the lines from the opening one up to, not including, `end`. */
  function Depth(lines: seq<string>, open: nat, end: nat): int
    requires open <= end <= |lines|
    decreases end
  {
    if end == open then 0 else Depth(lines, open, end - 1) + Braces(Strip(lines[end - 1]))
  }

  lemma BracesSnoc(s: string, i: nat)
    requires i < |s|
    ensures Braces(s[..i + 1]) == Braces(s[..i]) + (if s[i] == '{' then 1 else if s[i] == '}' then -1 else 0)
    ensures '{' in s[..i + 1] <==> '{' in s[..i] || s[i] == '{'
  {
    assert s[..i + 1] == s[..i] + [s[i]];
    assert (s[..i] + [s[i]])[..i] == s[..i];
  }

  method CountBraces(s: string) returns (balance: int, any: bool)
    ensures balance == Braces(s) && (any <==> '{' in s)
  {
    balance, any := 0, false;
    for i := 0 to |s|
      invariant balance == Braces(s[..i]) && (any <==> '{' in s[..i])
    {
      BracesSnoc(s, i);
      if s[i] == '{' {
        balance, any := balance + 1, true;
      } else if s[i] == '}' {
        balance := balance - 1;
      }
    }
    assert s[..|s|] == s;
  }

  /** The lines before `end` bring the depth back to 0 or below. */
  predicate ClosedBy(lines: seq<string>, open: nat, end: nat)
    requires end <= |lines|
  {
    open < end && Depth(lines, open, end) <= 0
  }

  /** No line before the last one fills the cap. */
  ghost predicate WithinCap(lines: seq<string>, from: nat, end: nat)
    requires end <= |lines|
  {
    forall i | from < i < end :: |Lines(lines[from..i])| < MAX_BODY
  }

  ghost predicate NotClosedBy(lines: seq<string>, open: nat, end: nat)
    requires end <= |lines|
  {
    forall i | open < i <= end :: !ClosedBy(lines, open, i)
  }

  /** The run goes on from the signature to the first line, from the opening one on, after which
      the depth is 0 or below, or to the line that fills the cap, or to the end of the file. */
  ghost predicate RunEnds(lines: seq<string>, sig: nat, open: nat, end: nat) {
    && sig < end <= |lines|
    && WithinCap(lines, sig, end) && NotClosedBy(lines, open, end - 1)
    && (end == |lines| || |Lines(lines[sig..end])| >= MAX_BODY || ClosedBy(lines, open, end))
  }

  lemma LinesSnoc(lines: seq<string>, from: nat, end: nat)
    requires from <= end < |lines|
    ensures Lines(lines[from..end + 1]) == Lines(lines[from..end]) + lines[end] + "\n"
  {
    assert lines[from..end + 1][..end - from] == lines[from..end];
  }

  /** The loop's depth and flag before line `end`. */
  ghost predicate Tracks(lines: seq<string>, open: nat, end: nat, depth: int, started: bool)
    requires end <= |lines|
  {
    if open < end then depth == Depth(lines, open, end) && started else depth == 0
  }

  method AddLine(lines: seq<string>, open: nat, end: nat, depth: int, started: bool)
    returns (depth': int, started': bool, closed: bool)
    requires open < |lines| && end < |lines| && '{' in Strip(lines[open]) && Tracks(lines, open, end, depth, started)
    ensures Tracks(lines, open, end + 1, depth', started') && (closed <==> ClosedBy(lines, open, end + 1))
  {
    depth', started', closed := depth, started, false;
    if end >= open {
      var stripped := StripStringsAndComments(lines[end]);
      var balance, any := CountBraces(stripped);
      depth', started' := depth + balance, started || any;
      closed := started' && depth' <= 0;
    }
  }

  /** The lines up to `end` belong to the run. */
  ghost predicate RunReaches(lines: seq<string>, sig: nat, open: nat, end: nat) {
    && sig <= end <= |lines| && WithinCap(lines, sig, end)
    && (sig < end ==> NotClosedBy(lines, open, end - 1))
  }

  lemma RunGrows(lines: seq<string>, sig: nat, open: nat, end: nat)
    requires RunReaches(lines, sig, open, end) && sig <= open && end < |lines|
    requires |Lines(lines[sig..end])| < MAX_BODY && !ClosedBy(lines, open, end)
    ensures RunReaches(lines, sig, open, end + 1)
  {
  }

  method CollectBraces(lines: seq<string>, sig: nat, open: nat) returns (text: string, end: nat)
    requires sig <= open < |lines| && '{' in Strip(lines[open])
    ensures RunEnds(lines, sig, open, end) && text == Lines(lines[sig..end])
  {
    var depth, started, closed := 0, false, false;
    text, end := "", sig;
    while end < |lines| && |text| < MAX_BODY && !closed
      invariant RunReaches(lines, sig, open, end) && text == Lines(lines[sig..end])
      invariant Tracks(lines, open, end, depth, started) && (closed <==> ClosedBy(lines, open, end))
      invariant end == sig ==> !closed && text == ""
      decreases |lines| - end
    {
      LinesSnoc(lines, sig, end);
      RunGrows(lines, sig, open, end);
      text := text + lines[end] + "\n";
      depth, started, closed := AddLine(lines, open, end, depth, started);
      end := end + 1;
    }
  }

  ghost predicate NoMethodBefore(lines: seq<string>, start: nat, end: nat)
    requires end <= |lines|
  {
    forall i | start < i < end :: !MethodLike(TrimSpace(lines[i]))
  }

  /** The window goes on to the next method-like line, at most 20 lines, or to the cap. */
  ghost predicate WindowEnds(lines: seq<string>, start: nat, end: nat) {
    var limit := Least(start + WINDOW, |lines|);
    && start < end <= limit
    && WithinCap(lines, start, end) && NoMethodBefore(lines, start, end)
    && (end == limit || |Lines(lines[start..end])| >= MAX_BODY || MethodLike(TrimSpace(lines[end])))
  }

  method CollectWindow(lines: seq<string>, start: nat) returns (text: string, end: nat)
    requires start < |lines|
    ensures WindowEnds(lines, start, end) && text == Lines(lines[start..end])
  {
    text, end := "", start;
    while end < Least(start + WINDOW, |lines|) && |text| < MAX_BODY
      invariant start <= end <= Least(start + WINDOW, |lines|) && text == Lines(lines[start..end])
      invariant WithinCap(lines, start, end) && NoMethodBefore(lines, start, end)
    {
      if end > start && MethodLike(TrimSpace(lines[end])) {
        break;
      }
      LinesSnoc(lines, start, end);
      text := text + lines[end] + "\n";
      end := end + 1;
    }
  }

  function Clip(line: string): string {
    if |line| > MAX_LINE then line[..MAX_LINE] else line
  }

  /** The trimmed text, or the start of the line if that is empty. */
  function OrLine(text: string, line: string): string {
    if TrimSpace(text) != "" then TrimSpace(text) else Clip(line)
  }

  /** What a body was taken from. */
  datatype Origin =
    | Nowhere
    | BraceRun(signature: nat, open: nat, end: nat)
    | Window(start: nat, end: nat)

  /** The opening line: near the start or, failing that, by name. */
  ghost predicate Opens(lines: seq<string>, start: nat, methodName: string, open: Option<nat>)
    requires start < |lines|
  {
    || (OpensNear(lines, start, open) && (open.Some? || methodName == ""))
    || (OpensNear(lines, start, None) && methodName != "" && OpensByName(lines, methodName, open))
  }

  ghost predicate TakenFrom(lines: seq<string>, start: nat, methodName: string, origin: Origin, body: string)
    requires start < |lines|
  {
    match origin
    case Nowhere => false
    case BraceRun(sig, open, end) =>
      && Opens(lines, start, methodName, Some(open)) && open < |lines|
      && IsSignature(lines, open, sig) && RunEnds(lines, sig, open, end)
      && body == OrLine(Lines(lines[sig..end]), lines[sig])
    case Window(from, end) =>
      && Opens(lines, start, methodName, None)
      && from == start && WindowEnds(lines, start, end)
      && body == OrLine(Lines(lines[start..end]), lines[start])
  }

  /** content is None if the file cannot be read. */
  method ReadFunctionBody(content: Option<string>, startLine: int, methodName: string)
    returns (body: string, ghost start: Option<nat>, ghost origin: Origin)
    ensures content == None ==> start == None
    ensures content.Some? && 0 < startLine <= |Split(content.value)| ==> start == Some(startLine - 1)
    ensures content.Some? && startLine <= 0 ==> start == None
    ensures content.Some? && startLine > |Split(content.value)| ==>
      if methodName == "" then start == None
      else IsFirst(Split(content.value), 0, |Split(content.value)|, line => Declares(line, methodName), start)
    ensures start == None ==> body == ""
    ensures start.Some? ==> start.value < |Split(content.value)|
    ensures start.Some? ==> TakenFrom(Split(content.value), start.value, methodName, origin, body)
  {
    start, origin := None, Nowhere;
    if content == None {
      return "", start, origin;
    }
    var lines := Split(content.value);
    var found := StartOf(lines, startLine, methodName);
    start := found;
    if found == None {
      return "", start, origin;
    }
    body, origin := BodyAt(lines, found.value, methodName);
  }

  method BodyAt(lines: seq<string>, start: nat, methodName: string) returns (body: string, ghost origin: Origin)
    requires start < |lines|
    ensures TakenFrom(lines, start, methodName, origin, body)
  {
    var open := FindNear(lines, start);
    if open == None && methodName != "" {
      open := FindByName(lines, methodName);
    }
    if open == None {
      var text, end := CollectWindow(lines, start);
      origin := Window(start, end);
      return OrLine(text, lines[start]), origin;
    }
    OpeningLineHasBrace(lines, start, methodName, open.value);
    var sig := SignatureOf(lines, open.value);
    var text, end := CollectBraces(lines, sig, open.value);
    origin := BraceRun(sig, open.value, end);
    return OrLine(text, lines[sig]), origin;
  }

  // ---- The fallbacks ----------------------------------------------------------------------------

  lemma {:induction false} StripKeepsOnlyItsOwn(s: string, inStr: bool)
    ensures forall c | c in StripStrings(s, inStr) :: c in s
  {
    if s != "" {
      assert forall c | c in s[1..] :: c in s;
      assert |s| > 1 ==> forall c | c in s[2..] :: c in s;
      if s[0] == '\\' && inStr {
        if |s| > 1 {
          StripKeepsOnlyItsOwn(s[2..], true);
        }
      } else {
        StripKeepsOnlyItsOwn(s[1..], if s[0] == '"' then !inStr else inStr);
      }
    }
  }

  lemma {:induction false} LinesHold(lines: seq<string>, k: nat)
    requires k < |lines|
    ensures forall c | c in lines[k] :: c in Lines(lines)
  {
    var last := |lines| - 1;
    if k < last {
      LinesHold(lines[..last], k);
      assert lines[..last][k] == lines[k];
    }
  }

  lemma FirstLineOfRunIsNotBlank(lines: seq<string>, sig: nat, open: nat)
    requires open < |lines| && IsSignature(lines, open, sig) && '{' in Strip(lines[open])
    ensures !Blank(lines[sig])
  {
    if sig == open {
      StripKeepsOnlyItsOwn(CutComment(lines[open]), false);
      assert '{' in lines[open] && !Space('{');
    } else {
      TrimSpaceBlank(lines[sig]);
    }
  }

  /** The text is always the trimmed text of the run, and the run is never blank, except that a
      window of blanks gives the start of its first line, itself blank: the line's first 300 bytes
      are never a signature. */
  lemma BodyIsTheTrimmedRun(lines: seq<string>, start: nat, methodName: string, origin: Origin, body: string)
    requires start < |lines| && TakenFrom(lines, start, methodName, origin, body)
    ensures origin.BraceRun? ==>
      body != "" && body == TrimSpace(Lines(lines[origin.signature..origin.end]))
    ensures origin.Window? ==>
      if Blank(Lines(lines[start..origin.end])) then Blank(body) else body == TrimSpace(Lines(lines[start..origin.end]))
  {
    match origin
    case BraceRun(sig, open, end) =>
      OpeningLineHasBrace(lines, start, methodName, open);
      FirstLineOfRunIsNotBlank(lines, sig, open);
      LinesHold(lines[sig..end], 0);
      TrimSpaceBlank(Lines(lines[sig..end]));
    case Window(_, end) =>
      LinesHold(lines[start..end], 0);
      TrimSpaceBlank(Lines(lines[start..end]));
    case Nowhere =>
  }

  /** The lines from the opening one up to, not including, `end`, without strings and comments. */
  function StrippedText(lines: seq<string>, open: nat, end: nat): string
    requires open <= end <= |lines|
    decreases end
  {
    if end == open then "" else StrippedText(lines, open, end - 1) + Strip(lines[end - 1])
  }

  function Excess(s: string): int {
    multiset(s)['{'] as int - multiset(s)['}'] as int
  }

  lemma {:induction false} BracesAreExcess(s: string)
    ensures Braces(s) == Excess(s)
  {
    if s != "" {
      var init, last := s[..|s| - 1], s[|s| - 1];
      BracesAreExcess(init);
      assert s == init + [last];
    }
  }

  lemma ExcessAdds(a: string, b: string)
    ensures Excess(a + b) == Excess(a) + Braces(b)
  {
    BracesAreExcess(b);
    assert multiset(a + b) == multiset(a) + multiset(b);
  }

  lemma {:induction false} DepthIsExcess(lines: seq<string>, open: nat, end: nat)
    requires open <= end <= |lines|
    ensures Depth(lines, open, end) == Excess(StrippedText(lines, open, end))
    decreases end
  {
    if open < end {
      DepthIsExcess(lines, open, end - 1);
      ExcessAdds(StrippedText(lines, open, end - 1), Strip(lines[end - 1]));
    }
  }

  /** A brace run has more opening than closing braces outside strings and comments after every
      line from the opening one on but its last; and it ends with at least as many closing ones,
      unless the cap or the end of the file comes first. */
  lemma BraceRunIsBalanced(lines: seq<string>, start: nat, methodName: string, origin: Origin, body: string)
    requires start < |lines| && TakenFrom(lines, start, methodName, origin, body) && origin.BraceRun?
    ensures var sig, open, end := origin.signature, origin.open, origin.end;
      && (forall i | open < i < end :: Excess(StrippedText(lines, open, i)) > 0)
      && (end < |lines| && |Lines(lines[sig..end])| < MAX_BODY ==>
            open < end && Excess(StrippedText(lines, open, end)) <= 0)
  {
    var open, end := origin.open, origin.end;
    forall i | open < i < end ensures Excess(StrippedText(lines, open, i)) > 0 {
      DepthIsExcess(lines, open, i);
      assert !ClosedBy(lines, open, i);
    }
    if open < end {
      DepthIsExcess(lines, open, end);
    }
  }
}
