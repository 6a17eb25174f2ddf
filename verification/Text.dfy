/** The string operations the modelled code takes from Go's strings package. */
module Text {

  predicate HasPrefix(s: string, p: string) {
    |p| <= |s| && s[..|p|] == p
  }

  predicate HasSuffix(s: string, p: string) {
    |p| <= |s| && s[|s| - |p|..] == p
  }

  /** p occurs in s at position i. */
  predicate At(s: string, p: string, i: int) {
    0 <= i && i + |p| <= |s| && s[i..i + |p|] == p
  }

  predicate Contains(s: string, p: string) {
    exists i | 0 <= i <= |s| :: At(s, p, i)
  }

  function LowerChar(c: char): char {
    if 'A' <= c <= 'Z' then c - 'A' + 'a' else c
  }

  function UpperChar(c: char): char {
    if 'a' <= c <= 'z' then c - 'a' + 'A' else c
  }

  function Lower(s: string): string {
    seq(|s|, i requires 0 <= i < |s| => LowerChar(s[i]))
  }

  function Upper(s: string): string {
    seq(|s|, i requires 0 <= i < |s| => UpperChar(s[i]))
  }

  /** The lines of s: strings.Split(s, "\n"). */
  function Split(s: string): (lines: seq<string>)
    ensures |lines| >= 1
  {
    if s == "" then [""]
    else
      var rest := Split(s[1..]);
      if s[0] == '\n' then [""] + rest else [[s[0]] + rest[0]] + rest[1..]
  }

  /** strings.Join(lines, "\n"). */
  function Join(lines: seq<string>): string {
    if |lines| == 0 then ""
    else if |lines| == 1 then lines[0]
    else lines[0] + "\n" + Join(lines[1..])
  }

  predicate SingleLines(lines: seq<string>) {
    forall i | 0 <= i < |lines| :: '\n' !in lines[i]
  }

  lemma {:induction false} SplitGivesSingleLines(s: string)
    ensures SingleLines(Split(s))
  {
    if s != "" {
      SplitGivesSingleLines(s[1..]);
    }
  }

  lemma {:induction false} JoinSplit(s: string)
    ensures Join(Split(s)) == s
  {
    if s != "" {
      JoinSplit(s[1..]);
      var rest := Split(s[1..]);
      if s[0] == '\n' {
        assert ([""] + rest)[1..] == rest;
      } else if |rest| > 1 {
        assert ([[s[0]] + rest[0]] + rest[1..])[1..] == rest[1..];
      }
    }
  }

  lemma {:induction false} SplitJoin(lines: seq<string>)
    requires |lines| >= 1 && SingleLines(lines)
    ensures Split(Join(lines)) == lines
    decreases |lines|, |lines[0]|
  {
    if lines[0] != "" {
      var shorter := lines[0 := lines[0][1..]];
      assert shorter[1..] == lines[1..];
      assert Join(lines) == [lines[0][0]] + Join(shorter);
      SplitJoin(shorter);
      assert lines[0] == [lines[0][0]] + shorter[0];
      assert lines == [lines[0]] + shorter[1..];
    } else if |lines| > 1 {
      assert Join(lines)[1..] == Join(lines[1..]);
      SplitJoin(lines[1..]);
    }
  }

  lemma JoinCons(first: string, lines: seq<string>)
    requires |lines| >= 1
    ensures Join([first] + lines) == first + "\n" + Join(lines)
  {
    assert ([first] + lines)[1..] == lines;
  }

  lemma {:induction false} JoinSnoc(lines: seq<string>, last: string)
    requires |lines| >= 1
    ensures Join(lines + [last]) == Join(lines) + "\n" + last
  {
    if |lines| == 1 {
      assert (lines + [last])[1..] == [last];
    } else {
      JoinSnoc(lines[1..], last);
      assert (lines + [last])[1..] == lines[1..] + [last];
    }
  }

  /** strings.TrimRight(s, "\n"). */
  function TrimNewlines(s: string): string {
    if s != "" && s[|s| - 1] == '\n' then TrimNewlines(s[..|s| - 1]) else s
  }

  /** Trimming trailing newlines only drops trailing empty lines; in particular a line that is
      not empty survives at its place. */
  lemma {:induction false} TrimKeepsLine(lines: seq<string>, k: nat) returns (kept: nat)
    requires SingleLines(lines) && k < |lines| && lines[k] != ""
    ensures k < kept <= |lines|
    ensures TrimNewlines(Join(lines)) == Join(lines[..kept])
    ensures Split(TrimNewlines(Join(lines))) == lines[..kept]
  {
    var n := |lines|;
    var init, last := lines[..n - 1], lines[n - 1];
    assert lines == init + [last];
    if last == "" {
      kept := TrimKeepsLine(init, k);
      JoinSnoc(init, last);
      assert Join(lines)[..|Join(lines)| - 1] == Join(init);
      assert lines[..kept] == init[..kept];
    } else {
      kept := n;
      assert lines[..kept] == lines;
      if n > 1 {
        JoinSnoc(init, last);
      }
      assert Join(lines)[|Join(lines)| - 1] == last[|last| - 1];
    }
    SplitJoin(lines[..kept]);
  }

  /** strings.Index: the first position of p in s, or -1. */
  function Index(s: string, p: string): int {
    if HasPrefix(s, p) then 0
    else if s == "" then -1
    else
      var i := Index(s[1..], p);
      if i < 0 then -1 else i + 1
  }

  lemma {:induction false} IndexIsFirst(s: string, p: string, i: nat)
    requires At(s, p, i) && forall j | 0 <= j < i :: !At(s, p, j)
    ensures Index(s, p) == i
  {
    if i > 0 {
      assert !At(s, p, 0);
      forall j | 0 <= j < i - 1 ensures !At(s[1..], p, j) {
        assert !At(s, p, j + 1);
        assert j + 1 + |p| <= |s| ==> s[1..][j..j + |p|] == s[j + 1..j + 1 + |p|];
      }
      assert s[1..][i - 1..i - 1 + |p|] == s[i..i + |p|];
      IndexIsFirst(s[1..], p, i - 1);
    }
  }

  lemma {:induction false} IndexAtMost(s: string, p: string, j: nat)
    requires At(s, p, j)
    ensures 0 <= Index(s, p) <= j
  {
    if !HasPrefix(s, p) {
      assert j == 0 ==> HasPrefix(s, p);
      assert s[1..][j - 1..j - 1 + |p|] == s[j..j + |p|];
      IndexAtMost(s[1..], p, j - 1);
    }
  }

  lemma {:induction false} IndexOfAbsent(s: string, p: string)
    requires forall j | 0 <= j <= |s| :: !At(s, p, j)
    ensures Index(s, p) == -1
  {
    assert !At(s, p, 0);
    if s != "" {
      forall j | 0 <= j <= |s[1..]| ensures !At(s[1..], p, j) {
        assert !At(s, p, j + 1);
        assert j + 1 + |p| <= |s| ==> s[1..][j..j + |p|] == s[j + 1..j + 1 + |p|];
      }
      IndexOfAbsent(s[1..], p);
    }
  }

  predicate Space(c: char) {
    c == ' ' || '\t' <= c <= '\r'
  }

  function TrimLeft(s: string): string {
    if s != "" && Space(s[0]) then TrimLeft(s[1..]) else s
  }

  function TrimRight(s: string): string {
    if s != "" && Space(s[|s| - 1]) then TrimRight(s[..|s| - 1]) else s
  }

  /** strings.TrimSpace, for ASCII */
  function TrimSpace(s: string): string {
    TrimRight(TrimLeft(s))
  }

  predicate Blank(s: string) {
    forall c | c in s :: Space(c)
  }

  /** s neither begins nor ends with a space. */
  predicate Trimmed(s: string) {
    s != "" && !Space(s[0]) && !Space(s[|s| - 1])
  }

  /** Leading blanks are trimmed, and the trimming ends within the first part that is not blank. */
  lemma {:induction false} TrimLeftSkips(lead: string, s: string)
    ensures TrimLeft(lead + s) == if Blank(lead) then TrimLeft(s) else TrimLeft(lead) + s
  {
    if lead == "" {
      assert lead + s == s;
    } else {
      assert lead == [lead[0]] + lead[1..] && (lead + s)[1..] == lead[1..] + s;
      TrimLeftSkips(lead[1..], s);
    }
  }

  lemma {:induction false} TrimRightSkips(s: string, trail: string)
    ensures TrimRight(s + trail) == if Blank(trail) then TrimRight(s) else s + TrimRight(trail)
  {
    if trail == "" {
      assert s + trail == s;
    } else {
      var n := |trail| - 1;
      assert trail == trail[..n] + [trail[n]] && (s + trail)[..|s| + n] == s + trail[..n];
      TrimRightSkips(s, trail[..n]);
    }
  }

  /** Trimming drops exactly the blanks around. */
  lemma TrimSpaceOf(lead: string, s: string, trail: string)
    requires Blank(lead) && Trimmed(s) && Blank(trail)
    ensures TrimSpace(lead + s + trail) == s
  {
    assert lead + s + trail == lead + (s + trail);
    TrimLeftSkips(lead, s + trail);
    TrimRightSkips(s, trail);
  }

  lemma {:induction false} TrimLeftBlank(s: string)
    ensures TrimLeft(s) == "" <==> Blank(s)
    ensures TrimLeft(s) != "" ==> !Blank(TrimLeft(s))
  {
    if s != "" {
      if Space(s[0]) {
        TrimLeftBlank(s[1..]);
        assert s == [s[0]] + s[1..];
      } else {
        assert s[0] in s;
      }
    }
  }

  lemma {:induction false} TrimRightBlank(s: string)
    ensures TrimRight(s) == "" <==> Blank(s)
  {
    if s != "" {
      var n := |s| - 1;
      if Space(s[n]) {
        TrimRightBlank(s[..n]);
        assert s == s[..n] + [s[n]];
      } else {
        assert s[n] in s;
      }
    }
  }

  /** Only blanks are trimmed away altogether. */
  lemma TrimSpaceBlank(s: string)
    ensures TrimSpace(s) == "" <==> Blank(s)
  {
    TrimLeftBlank(s);
    TrimRightBlank(TrimLeft(s));
  }

  /** A blank behind makes no difference. */
  lemma BlankBehind(s: string, c: char)
    requires Space(c)
    ensures TrimSpace(s + [c]) == TrimSpace(s)
  {
    TrimLeftSkips(s, [c]);
    TrimLeftBlank(s);
    TrimLeftBlank([c]);
    TrimRightSkips(TrimLeft(s), [c]);
  }
}
