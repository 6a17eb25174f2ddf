/** Taking the value out of what the Joern console prints (internal/cpg_engine/http.go). Strings
    stand for their bytes. */
module Repl {
  import opened Findings
  import opened Text

  const ESC := '\U{1B}'
  const ANCHOR := " = \"\"\""
  const ASSIGNED := " = \""
  const TRIPLE := "\"\"\""

  predicate Letter(c: char) {
    'A' <= c <= 'Z' || 'a' <= c <= 'z'
  }

  // ---- Control sequences ------------------------------------------------------------------------

  /** What is left of s; inEscape says that s begins inside a control sequence. */
  function Strip(s: string, inEscape: bool): string {
    if s == "" then ""
    else if inEscape then Strip(s[1..], !Letter(s[0]))
    else if |s| >= 2 && s[0] == ESC && s[1] == '[' then Strip(s[2..], true)
    else [s[0]] + Strip(s[1..], false)
  }

  method StripANSI(s: string) returns (out: string)
    ensures out == Strip(s, false)
  {
    out := "";
    var inEscape, i := false, 0;
    while i < |s|
      invariant 0 <= i <= |s|
      invariant out + Strip(s[i..], inEscape) == Strip(s, false)
    {
      var c := s[i];
      if inEscape {
        if Letter(c) {
          inEscape := false;
        }
      } else if c == ESC && i + 1 < |s| && s[i + 1] == '[' {
        inEscape := true;
        i := i + 1;
      } else {
        assert out + ([c] + Strip(s[i..][1..], false)) == (out + [c]) + Strip(s[i + 1..], false) by {
          assert s[i..][1..] == s[i + 1..];
        }
        out := out + [c];
      }
      i := i + 1;
    }
  }

  /** Console output: plain text, and control sequences (section 5.4 of ECMA-48) that end with a
      letter and have no other letter. */
  datatype Piece = Plain(text: string) | Control(parameters: string, final: char)

  predicate WellFormed(p: Piece) {
    match p
    case Plain(text) => ESC !in text
    case Control(parameters, final) => Letter(final) && forall c | c in parameters :: !Letter(c)
  }

  function Render(pieces: seq<Piece>): string {
    if pieces == [] then ""
    else
      (match pieces[0]
       case Plain(text) => text
       case Control(parameters, final) => [ESC, '['] + parameters + [final])
      + Render(pieces[1..])
  }

  function PlainText(pieces: seq<Piece>): string {
    if pieces == [] then ""
    else (if pieces[0].Plain? then pieces[0].text else "") + PlainText(pieces[1..])
  }

  lemma {:induction false} StripPlain(text: string, rest: string)
    requires ESC !in text
    ensures Strip(text + rest, false) == text + Strip(rest, false)
  {
    if text == "" {
      assert text + rest == rest;
    } else {
      StripPlain(text[1..], rest);
      assert (text + rest)[1..] == text[1..] + rest;
      assert (text + rest)[0] == text[0];
    }
  }

  lemma {:induction false} StripParameters(parameters: string, final: char, rest: string)
    requires Letter(final) && forall c | c in parameters :: !Letter(c)
    ensures Strip(parameters + [final] + rest, true) == Strip(rest, false)
  {
    var s := parameters + [final] + rest;
    if parameters == "" {
      assert s[1..] == rest;
    } else {
      StripParameters(parameters[1..], final, rest);
      assert s[1..] == parameters[1..] + [final] + rest;
    }
  }

  lemma StripControl(parameters: string, final: char, rest: string)
    requires Letter(final) && forall c | c in parameters :: !Letter(c)
    ensures Strip([ESC, '['] + parameters + [final] + rest, false) == Strip(rest, false)
  {
    var s := [ESC, '['] + parameters + [final] + rest;
    assert s[2..] == parameters + [final] + rest;
    StripParameters(parameters, final, rest);
  }

  /** Exactly the plain text is left. */
  lemma {:induction false} StripKeepsThePlainText(pieces: seq<Piece>)
    requires forall p | p in pieces :: WellFormed(p)
    ensures Strip(Render(pieces), false) == PlainText(pieces)
  {
    if pieces != [] {
      var rest := Render(pieces[1..]);
      StripKeepsThePlainText(pieces[1..]);
      assert WellFormed(pieces[0]) by {
        assert pieces[0] in pieces;
      }
      match pieces[0]
      case Plain(text) =>
        StripPlain(text, rest);
      case Control(parameters, final) =>
        StripControl(parameters, final, rest);
    }
  }

  // ---- Searching and trimming -------------------------------------------------------------------

  /** strings.LastIndex */
  function LastIndex(s: string, p: string): int {
    if HasSuffix(s, p) then |s| - |p|
    else if s == "" then -1
    else LastIndex(s[..|s| - 1], p)
  }

  lemma {:induction false} LastIndexOfAbsent(s: string, p: string)
    requires forall j | 0 <= j <= |s| :: !At(s, p, j)
    ensures LastIndex(s, p) == -1
  {
    assert HasSuffix(s, p) ==> At(s, p, |s| - |p|);
    if s != "" {
      var shorter := s[..|s| - 1];
      forall j | 0 <= j <= |shorter| ensures !At(shorter, p, j) {
        assert !At(s, p, j);
        assert j + |p| <= |shorter| ==> shorter[j..j + |p|] == s[j..j + |p|];
      }
      LastIndexOfAbsent(shorter, p);
    }
  }

  lemma {:induction false} LastIndexIsLast(s: string, p: string, i: nat)
    requires p != "" && At(s, p, i) && forall j | i < j <= |s| :: !At(s, p, j)
    ensures LastIndex(s, p) == i
  {
    if HasSuffix(s, p) {
      assert At(s, p, |s| - |p|);
    } else {
      var shorter := s[..|s| - 1];
      forall j | i < j <= |shorter| ensures !At(shorter, p, j) {
        assert !At(s, p, j);
        assert j + |p| <= |shorter| ==> shorter[j..j + |p|] == s[j..j + |p|];
      }
      assert i + |p| < |s| by {
        assert i + |p| == |s| ==> HasSuffix(s, p);
      }
      assert shorter[i..i + |p|] == s[i..i + |p|];
      LastIndexIsLast(shorter, p, i);
    }
  }

  // ---- The value --------------------------------------------------------------------------------

  /** parseStdout after trimming and stripping; unquote decodes a JSON string literal, if it is one. */
  function Value(s: string, unquote: string -> Option<string>): string {
    var anchor := Index(s, ANCHOR);
    var content := if anchor < 0 then "" else Drop(s, anchor + |ANCHOR|);
    var end := LastIndex(content, TRIPLE);
    if anchor >= 0 && end >= 0 then Take(content, end)
    else Unquoted(Assigned(s), unquote)
  }

  /** The text behind the assignment at position `at`. */
  function ValueBehind(s: string, at: int): string {
    if at < 0 then "" else TrimSpace(Drop(s, at + 3))
  }

  /** The last assigned value, if it looks like JSON. */
  function Assigned(s: string): string {
    var candidate := ValueBehind(s, LastIndex(s, ASSIGNED));
    if candidate != "" && candidate[0] in {'[', '{', '"'} then candidate else s
  }

  function Unquoted(s: string, unquote: string -> Option<string>): string {
    if |s| >= 6 && HasPrefix(s, TRIPLE) && HasSuffix(s, TRIPLE) then s[3..|s| - 3]
    else if |s| >= 2 && s[0] == '"' && s[|s| - 1] == '"' && unquote(s).Some? then unquote(s).value
    else s
  }

  function Drop(s: string, n: nat): string {
    if n <= |s| then s[n..] else ""
  }

  function Take(s: string, n: nat): string {
    if n <= |s| then s[..n] else s
  }

  function ParseStdout(s: string, unquote: string -> Option<string>): string {
    Value(Strip(TrimSpace(s), false), unquote)
  }

  lemma NotAt(s: string, p: string, i: nat, k: nat)
    requires k < |p| && i + k < |s| && s[i + k] != p[k]
    ensures !At(s, p, i)
  {
    if i + |p| <= |s| {
      assert s[i..i + |p|][k] == s[i + k];
    }
  }

  /** The anchor has no border: two of its occurrences never overlap. */
  lemma AnchorAfterPrefix(prefix: string, rest: string)
    requires forall j | 0 <= j <= |prefix| :: !At(prefix, ANCHOR, j)
    ensures Index(prefix + ANCHOR + rest, ANCHOR) == |prefix|
  {
    var s := prefix + ANCHOR + rest;
    var n := |prefix|;
    assert s[n] == ' ' && s[n + 1] == '=' && s[n + 2] == ' ' && s[n + 3] == '"' && s[n + 4] == '"' && s[n + 5] == '"';
    forall j | 0 <= j < n ensures !At(s, ANCHOR, j) {
      if j + 6 <= n {
        assert s[j..j + 6] == prefix[j..j + 6];
        assert !At(prefix, ANCHOR, j);
      } else {
        NotAt(s, ANCHOR, j, if n - j == 2 then 3 else n - j);
      }
    }
    assert s[n..n + 6] == ANCHOR;
    IndexIsFirst(s, ANCHOR, n);
  }

  /** A triple-quoted value is the first anchor's content up to the last three quotes: all of it,
      whatever quotes or assignments the content itself has. */
  lemma TripleQuotedValue(prefix: string, content: string, unquote: string -> Option<string>)
    requires forall j | 0 <= j <= |prefix| :: !At(prefix, ANCHOR, j)
    ensures Value(prefix + ANCHOR + content + TRIPLE, unquote) == content
  {
    var s, n := prefix + ANCHOR + content + TRIPLE, |prefix|;
    assert s == prefix + ANCHOR + (content + TRIPLE);
    AnchorAfterPrefix(prefix, content + TRIPLE);
    assert s[n + 6..] == content + TRIPLE;
    assert (content + TRIPLE)[|content|..] == TRIPLE;
    assert (content + TRIPLE)[..|content|] == content;
  }

  /** Unwrapping inverts wrapping, under any control sequences and blanks the console adds. */
  lemma UnwrapInvertsWrap(
    lead: string, pieces: seq<Piece>, trail: string, prefix: string, content: string, unquote: string -> Option<string>)
    requires Blank(lead) && Blank(trail) && Trimmed(Render(pieces))
    requires forall p | p in pieces :: WellFormed(p)
    requires PlainText(pieces) == prefix + ANCHOR + content + TRIPLE
    requires forall j | 0 <= j <= |prefix| :: !At(prefix, ANCHOR, j)
    ensures ParseStdout(lead + Render(pieces) + trail, unquote) == content
  {
    TrimSpaceOf(lead, Render(pieces), trail);
    StripKeepsThePlainText(pieces);
    TripleQuotedValue(prefix, content, unquote);
  }

  lemma {:induction false} SplitLead(s: string) returns (lead: string, rest: string)
    requires !Blank(s)
    ensures s == lead + rest && Blank(lead) && rest != "" && !Space(rest[0])
  {
    if Space(s[0]) {
      lead, rest := SplitLead(s[1..]);
      lead := [s[0]] + lead;
    } else {
      lead, rest := "", s;
    }
  }

  lemma NoneInTail(lead: string, rest: string)
    requires forall j | 0 <= j <= |lead + rest| :: !At(lead + rest, ANCHOR, j)
    ensures forall j | 0 <= j <= |rest| :: !At(rest, ANCHOR, j)
  {
    var s := lead + rest;
    forall j | 0 <= j <= |rest| ensures !At(rest, ANCHOR, j) {
      assert !At(s, ANCHOR, |lead| + j);
      assert j + 6 <= |rest| ==> s[|lead| + j..|lead| + j + 6] == rest[j..j + 6];
    }
  }

  lemma OnePiece(s: string)
    ensures Render([Plain(s)]) == s && PlainText([Plain(s)]) == s
  {
    assert s + "" == s;
  }

  lemma LeadOfWrapped(lead: string, rest: string, wrapped: string)
    ensures lead + rest + ANCHOR + wrapped + TRIPLE == lead + (rest + ANCHOR + wrapped + TRIPLE) + ""
  {
  }

  /** The same for plain output: any prefix that is not blank and has no anchor, any content. */
  lemma PlainUnwrapInvertsWrap(prefix: string, content: string, unquote: string -> Option<string>)
    requires !Blank(prefix) && ESC !in prefix && ESC !in content
    requires forall j | 0 <= j <= |prefix| :: !At(prefix, ANCHOR, j)
    ensures ParseStdout(prefix + ANCHOR + content + TRIPLE, unquote) == content
  {
    var lead, start := SplitLead(prefix);
    NoneInTail(lead, start);
    PlainFromStart(lead, start, content, unquote);
  }

  lemma PlainFromStart(lead: string, start: string, content: string, unquote: string -> Option<string>)
    requires Blank(lead) && start != "" && !Space(start[0]) && ESC !in start && ESC !in content
    requires forall j | 0 <= j <= |start| :: !At(start, ANCHOR, j)
    ensures ParseStdout(lead + start + ANCHOR + content + TRIPLE, unquote) == content
  {
    var s := start + ANCHOR + content + TRIPLE;
    OnePiece(s);
    LeadOfWrapped(lead, start, content);
    UnwrapInvertsWrap(lead, [Plain(s)], "", start, content, unquote);
  }

  /** A value with no assignment in it that does not begin with a quote is only trimmed. */
  lemma BareValueIsKept(lead: string, value: string, trail: string, unquote: string -> Option<string>)
    requires Blank(lead) && Blank(trail) && Trimmed(value) && ESC !in value && value[0] != '"'
    requires forall j | 0 <= j <= |value| :: !At(value, ASSIGNED, j)
    ensures ParseStdout(lead + value + trail, unquote) == value
  {
    TrimSpaceOf(lead, value, trail);
    StripNothing(value);
    UnassignedValue(value, unquote);
  }

  lemma StripNothing(text: string)
    requires ESC !in text
    ensures Strip(text, false) == text
  {
    StripPlain(text, "");
    assert text + "" == text;
  }

  lemma UnassignedValue(value: string, unquote: string -> Option<string>)
    requires value != "" && value[0] != '"'
    requires forall j | 0 <= j <= |value| :: !At(value, ASSIGNED, j)
    ensures Value(value, unquote) == value
  {
    NoAnchor(value);
    IndexOfAbsent(value, ANCHOR);
    LastIndexOfAbsent(value, ASSIGNED);
  }

  /** The prefix must not be blank: trimming takes the anchor's own space away, and the wrapping
      stays on. */
  lemma BlankPrefixIsNotUnwrapped(prefix: string, content: string, unquote: string -> Option<string>)
    requires Blank(prefix) && ESC !in content
    requires var kept := "= \"\"\"" + content + TRIPLE;
      forall j | 0 <= j <= |kept| :: !At(kept, ASSIGNED, j)
    ensures ParseStdout(prefix + ANCHOR + content + TRIPLE, unquote) == "= \"\"\"" + content + TRIPLE
  {
    var kept := "= \"\"\"" + content + TRIPLE;
    assert prefix + ANCHOR + content + TRIPLE == (prefix + " ") + kept + "";
    BareValueIsKept(prefix + " ", kept, "", unquote);
  }

  // ---- Exactly which plain output is unwrapped ------------------------------------------------

  /** What is left of a wrapped value whose prefix is blank. */
  function Kept(content: string): string {
    "= \"\"\"" + content + TRIPLE
  }

  /** No JSON string literal ends with three quotes (section 7 of RFC 8259): only the middle one
      could be its end. */
  ghost predicate DecodesJSON(unquote: string -> Option<string>) {
    forall s | HasSuffix(s, TRIPLE) :: unquote(s) == None
  }

  lemma {:induction false} IndexIsAt(s: string, p: string)
    ensures Index(s, p) >= 0 ==> At(s, p, Index(s, p))
  {
    if s != "" && !HasPrefix(s, p) {
      IndexIsAt(s[1..], p);
      var i := Index(s[1..], p);
      assert i >= 0 ==> s[1..][i..i + |p|] == s[i + 1..i + 1 + |p|];
    }
  }

  lemma {:induction false} LastIndexIsAt(s: string, p: string)
    ensures LastIndex(s, p) >= 0 ==> At(s, p, LastIndex(s, p))
  {
    if s != "" && !HasSuffix(s, p) {
      LastIndexIsAt(s[..|s| - 1], p);
      var i := LastIndex(s[..|s| - 1], p);
      assert i >= 0 ==> s[..|s| - 1][i..i + |p|] == s[i..i + |p|];
    }
  }

  /** An assignment in what is left lies behind the wrapper's quotes and before the closing ones. */
  lemma AssignedInKept(content: string, at: nat)
    requires At(Kept(content), ASSIGNED, at)
    ensures 5 <= at && at + 6 <= |Kept(content)|
    ensures Kept(content)[at] == ' ' && Kept(content)[at + 3] == '"'
  {
    var s := Kept(content);
    var a := s[at..at + 4];
    assert a[0] == s[at] && a[1] == s[at + 1] && a[2] == s[at + 2] && a[3] == s[at + 3];
    assert s[0] == '=' && s[1] == ' ' && s[2] == '"' && s[3] == '"' && s[4] == '"';
    assert s[|s| - 3] == '"' && s[|s| - 2] == '"' && s[|s| - 1] == '"';
  }

  lemma AssignedOfKept(content: string)
    ensures var s, at := Kept(content), LastIndex(Kept(content), ASSIGNED);
      if at < 0 then Assigned(s) == s
      else 5 <= at && at + 6 <= |s| && s[at] == ' ' && s[at + 3] == '"' && Assigned(s) == s[at + 3..]
  {
    var s := Kept(content);
    LastIndexIsAt(s, ASSIGNED);
    var at := LastIndex(s, ASSIGNED);
    if at >= 0 {
      AssignedInKept(content, at);
      assert s[|s| - 1] == '"';
      AssignedQuoted(s, at);
    }
  }

  /** A last assigned value between quotes is taken as it is. */
  lemma AssignedQuoted(s: string, at: nat)
    requires LastIndex(s, ASSIGNED) == at && at + 3 < |s| && s[at + 3] == '"' && s[|s| - 1] == '"'
    ensures Assigned(s) == s[at + 3..]
  {
    QuotedBehind(s, at);
  }

  lemma QuotedBehind(s: string, at: nat)
    requires at + 3 < |s| && s[at + 3] == '"' && s[|s| - 1] == '"'
    ensures ValueBehind(s, at) == s[at + 3..]
  {
    TrimQuoted(s[at + 3..]);
  }

  lemma TrimQuoted(s: string)
    requires s != "" && s[0] == '"' && s[|s| - 1] == '"'
    ensures TrimSpace(s) == s
  {
    assert "" + s + "" == s;
    TrimSpaceOf("", s, "");
  }

  /** What ends with three quotes is kept, unless it begins with them too. */
  lemma UnquotedTriple(s: string, unquote: string -> Option<string>)
    requires DecodesJSON(unquote) && HasSuffix(s, TRIPLE)
    ensures Unquoted(s, unquote) == s || (|s| >= 6 && s[0] == '"' && |Unquoted(s, unquote)| == |s| - 6)
  {
    assert HasPrefix(s, TRIPLE) ==> s[0] == TRIPLE[0];
  }

  /** s is longer than the content by the wrapper's eight characters; or it is a value between
      quotes that is shorter, or as long as a content that begins with a blank. */
  predicate NotTheContent(s: string, content: string) {
    && HasSuffix(s, TRIPLE)
    && (|s| == |content| + 8 || (s[0] == '"' && |s| <= |content| && (|s| == |content| ==> content[0] == ' ')))
  }

  lemma EndOfKept(content: string, at: nat)
    requires 5 <= at && at + 6 <= |content| + 8 && Kept(content)[at] == ' ' && Kept(content)[at + 3] == '"'
    ensures NotTheContent(Kept(content)[at + 3..], content)
  {
    var s := Kept(content);
    var tail := s[at + 3..];
    assert s[|s| - 3..] == TRIPLE;
    assert tail[|tail| - 3..] == s[|s| - 3..];
    assert at == 5 ==> s[5] == content[0];
  }

  lemma AssignedIsNotTheContent(content: string)
    ensures NotTheContent(Assigned(Kept(content)), content)
  {
    var at := LastIndex(Kept(content), ASSIGNED);
    AssignedOfKept(content);
    if at < 0 {
      assert Kept(content)[|content| + 5..] == TRIPLE;
    } else {
      EndOfKept(content, at);
    }
  }

  lemma UnquotedIsNotTheContent(s: string, content: string, unquote: string -> Option<string>)
    requires DecodesJSON(unquote) && NotTheContent(s, content)
    ensures Unquoted(s, unquote) != content
  {
    UnquotedTriple(s, unquote);
  }

  lemma UnquotedOfKept(content: string, unquote: string -> Option<string>)
    requires DecodesJSON(unquote)
    ensures Unquoted(Assigned(Kept(content)), unquote) != content
  {
    AssignedIsNotTheContent(content);
    UnquotedIsNotTheContent(Assigned(Kept(content)), content, unquote);
  }

  /** It is never the content. */
  lemma KeptIsNotUnwrapped(content: string, unquote: string -> Option<string>)
    requires DecodesJSON(unquote)
    ensures Value(Kept(content), unquote) != content
  {
    var s := Kept(content);
    IndexIsAt(s, ANCHOR);
    var anchor := Index(s, ANCHOR);
    UnquotedOfKept(content, unquote);
    if anchor >= 0 {
      var rest := Drop(s, anchor + |ANCHOR|);
      LastIndexIsAt(rest, TRIPLE);
      assert |s| == |content| + 8;
    }
  }

  /** Plain wrapped output is unwrapped exactly if its prefix is not blank. */
  lemma PlainUnwrapsExactlyWhen(prefix: string, content: string, unquote: string -> Option<string>)
    requires DecodesJSON(unquote) && ESC !in prefix && ESC !in content
    requires forall j | 0 <= j <= |prefix| :: !At(prefix, ANCHOR, j)
    ensures ParseStdout(prefix + ANCHOR + content + TRIPLE, unquote) == content <==> !Blank(prefix)
  {
    if Blank(prefix) {
      assert prefix + ANCHOR + content + TRIPLE == (prefix + " ") + Kept(content) + "";
      TrimSpaceOf(prefix + " ", Kept(content), "");
      StripNothing(Kept(content));
      KeptIsNotUnwrapped(content, unquote);
    } else {
      PlainUnwrapInvertsWrap(prefix, content, unquote);
    }
  }

  lemma AssignedTakesTheLast(prefix: string, literal: string)
    requires |literal| >= 2 && literal[0] == '"' && literal[|literal| - 1] == '"'
    requires forall j | |prefix| < j <= |prefix + " = " + literal| :: !At(prefix + " = " + literal, ASSIGNED, j)
    ensures Assigned(prefix + " = " + literal) == literal
  {
    var s, n := prefix + " = " + literal, |prefix|;
    assert s[n..n + 4] == ASSIGNED;
    LastIndexIsLast(s, ASSIGNED, n);
    assert s[n + 3..] == literal;
    TrimQuoted(literal);
  }

  lemma NotTripleQuoted(prefix: string, literal: string)
    requires !At(prefix + " = " + literal, ANCHOR, |prefix|)
    ensures !(|literal| >= 6 && HasPrefix(literal, TRIPLE))
  {
    var s, n := prefix + " = " + literal, |prefix|;
    if |literal| >= 6 {
      assert s[n..n + 6] == " = " + literal[..3];
    }
  }

  /** A string literal is taken from its last assignment and decoded if it can be. */
  lemma AssignedLiteral(prefix: string, literal: string, unquote: string -> Option<string>)
    requires |literal| >= 2 && literal[0] == '"' && literal[|literal| - 1] == '"'
    requires forall j | 0 <= j <= |prefix + " = " + literal| :: !At(prefix + " = " + literal, ANCHOR, j)
    requires forall j | |prefix| < j <= |prefix + " = " + literal| :: !At(prefix + " = " + literal, ASSIGNED, j)
    ensures Value(prefix + " = " + literal, unquote) == if unquote(literal).Some? then unquote(literal).value else literal
  {
    IndexOfAbsent(prefix + " = " + literal, ANCHOR);
    AssignedTakesTheLast(prefix, literal);
    NotTripleQuoted(prefix, literal);
  }

  lemma NoAnchor(s: string)
    requires forall j | 0 <= j <= |s| :: !At(s, ASSIGNED, j)
    ensures forall j | 0 <= j <= |s| :: !At(s, ANCHOR, j)
  {
    forall j | 0 <= j <= |s| ensures !At(s, ANCHOR, j) {
      assert !At(s, ASSIGNED, j);
      assert j + 6 <= |s| ==> s[j..j + 6][..4] == s[j..j + 4];
      assert ANCHOR[..4] == ASSIGNED;
    }
  }
}
