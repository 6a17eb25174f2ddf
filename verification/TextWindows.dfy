/** Cutting code down to a byte budget for the model (internal/semantic/analysis/prompt.go).

    In the line windows a string stands for its bytes, one char each. */
module TextWindows {
  import opened Octets
  import opened Text

  // ---- A prefix on a character boundary ---------------------------------------------------------

  /** utf8.RuneStart: any byte but a continuation byte. */
  predicate RuneStart(b: Byte) {
    !(0x80 <= b < 0xC0)
  }

  /** k is the last position up to n that is 0 or holds a byte that can start a character. */
  ghost predicate LastStart(s: seq<Byte>, n: nat, k: nat)
    requires n < |s|
  {
    k <= n && (k == 0 || RuneStart(s[k])) && forall j | k < j <= n :: !RuneStart(s[j])
  }

  method TruncateUTF8(s: seq<Byte>, limit: nat) returns (r: seq<Byte>)
    ensures limit >= |s| ==> r == s
    ensures limit < |s| ==> |r| <= limit && r == s[..|r|] && LastStart(s, limit, |r|)
  {
    if limit >= |s| {
      return s;
    }
    var n: nat := limit;
    while n > 0 && !RuneStart(s[n])
      invariant n <= limit
      invariant forall j | n < j <= limit :: !RuneStart(s[j])
    {
      n := n - 1;
    }
    return s[..n];
  }

  /** Length of the character that b starts, by section 3 of RFC 3629; 0 if b starts none. */
  function CharLength(b: Byte): nat {
    if b < 0x80 then 1 else if 0xC2 <= b < 0xE0 then 2 else if 0xE0 <= b < 0xF0 then 3
    else if 0xF0 <= b < 0xF5 then 4 else 0
  }

  /** A second byte that keeps out overlong forms, surrogates and numbers above U+10FFFF. */
  predicate SecondByte(first: Byte, b: Byte) {
    if first == 0xE0 then 0xA0 <= b < 0xC0
    else if first == 0xED then 0x80 <= b < 0xA0
    else if first == 0xF0 then 0x90 <= b < 0xC0
    else if first == 0xF4 then 0x80 <= b < 0x90
    else 0x80 <= b < 0xC0
  }

  /** s begins with a whole character. */
  predicate StartsWithChar(s: seq<Byte>) {
    && s != []
    && 1 <= CharLength(s[0]) <= |s|
    && (CharLength(s[0]) > 1 ==> SecondByte(s[0], s[1]))
    && (forall i | 2 <= i < CharLength(s[0]) :: !RuneStart(s[i]))
  }

  predicate ValidUTF8(s: seq<Byte>) {
    s == [] || (StartsWithChar(s) && ValidUTF8(s[CharLength(s[0])..]))
  }

  /** A prefix of valid text is valid exactly if it ends where a character starts. */
  lemma {:induction false} PrefixValidExactly(s: seq<Byte>, k: nat)
    requires ValidUTF8(s) && k <= |s|
    ensures ValidUTF8(s[..k]) <==> k == |s| || RuneStart(s[k])
  {
    if s != [] && k > 0 {
      var c := CharLength(s[0]);
      assert s[..k][0] == s[0];
      if k >= c {
        PrefixValidExactly(s[c..], k - c);
        assert s[..k][c..] == s[c..][..k - c];
        assert k < |s| ==> s[c..][k - c] == s[k];
      }
    }
  }

  /** In valid text the last character start is at most three bytes back. */
  lemma {:induction false} StartNearby(s: seq<Byte>, n: nat) returns (k: nat)
    requires ValidUTF8(s) && n < |s|
    ensures n <= k + 3 && k <= n && RuneStart(s[k])
  {
    var c := CharLength(s[0]);
    if n < c {
      k := 0;
    } else {
      var inner := StartNearby(s[c..], n - c);
      k := inner + c;
    }
  }

  /** Valid text is cut to its longest valid prefix within the limit, which is at most three bytes
      short of it. */
  lemma TruncationKeepsUTF8(s: seq<Byte>, limit: nat, r: seq<Byte>)
    requires ValidUTF8(s) && limit < |s|
    requires |r| <= limit && r == s[..|r|] && LastStart(s, limit, |r|)
    ensures ValidUTF8(r) && limit <= |r| + 3
    ensures forall k | |r| < k <= limit :: !ValidUTF8(s[..k])
  {
    var near := StartNearby(s, limit);
    PrefixValidExactly(s, |r|);
    forall k | |r| < k <= limit ensures !ValidUTF8(s[..k]) {
      PrefixValidExactly(s, k);
    }
  }

  // ---- A window of lines ------------------------------------------------------------------------

  /** Bytes of the window of lines lo to hi. */
  function Size(lines: seq<string>, lo: nat, hi: nat): nat
    requires lo <= hi < |lines|
  {
    |Join(lines[lo..hi + 1])|
  }

  lemma GrowTail(lines: seq<string>, lo: nat, hi: nat)
    requires lo <= hi && hi + 1 < |lines|
    ensures Size(lines, lo, hi + 1) == Size(lines, lo, hi) + 1 + |lines[hi + 1]|
  {
    assert lines[lo..hi + 2] == lines[lo..hi + 1] + [lines[hi + 1]];
    JoinSnoc(lines[lo..hi + 1], lines[hi + 1]);
  }

  lemma GrowHead(lines: seq<string>, lo: nat, hi: nat)
    requires 0 < lo <= hi < |lines|
    ensures Size(lines, lo - 1, hi) == Size(lines, lo, hi) + 1 + |lines[lo - 1]|
  {
    assert lines[lo - 1..hi + 1][1..] == lines[lo..hi + 1];
  }

  lemma {:induction false} SizeIsMonotone(lines: seq<string>, lo: nat, hi: nat, lower: nat, higher: nat)
    requires lower <= lo <= hi <= higher < |lines|
    ensures Size(lines, lo, hi) <= Size(lines, lower, higher)
    decreases higher - hi + lo - lower
  {
    if lower < lo {
      GrowHead(lines, lo, hi);
      SizeIsMonotone(lines, lo - 1, hi, lower, higher);
    } else if hi < higher {
      GrowTail(lines, lo, hi);
      SizeIsMonotone(lines, lo, hi + 1, lower, higher);
    }
  }

  /** The window lo to hi cannot take in the line after it. */
  predicate TailStops(lines: seq<string>, budget: int, lo: nat, hi: nat)
    requires lo <= hi < |lines|
  {
    hi + 1 == |lines| || Size(lines, lo, hi + 1) > budget
  }

  predicate HeadStops(lines: seq<string>, budget: int, lo: nat, hi: nat)
    requires lo <= hi < |lines|
  {
    lo == 0 || Size(lines, lo - 1, hi) > budget
  }

  /** The window grew line by line on both sides in turn, tail first: a side is shorter only
      because it could not be grown in its turn. */
  ghost predicate Balanced(lines: seq<string>, budget: int, target: nat, lo: nat, hi: nat)
    requires lo <= target <= hi < |lines|
  {
    var head, tail := target - lo, hi - target;
    && (head < tail ==> HeadStops(lines, budget, lo, target + head + 1))
    && (tail < head ==> TailStops(lines, budget, target - tail, hi))
  }

  /** The window around the target that fits the budget, cannot be grown and is balanced. */
  ghost predicate BestWindow(lines: seq<string>, budget: int, target: nat, lo: nat, hi: nat) {
    && lo <= target <= hi < |lines|
    && (Size(lines, lo, hi) <= budget || (lo == target == hi))
    && TailStops(lines, budget, lo, hi) && HeadStops(lines, budget, lo, hi)
    && Balanced(lines, budget, target, lo, hi)
  }

  function Clamp(target: int, count: nat): nat
    requires count > 0
  {
    if target < 0 then 0 else if target >= count then count - 1 else target
  }

  const HEAD_MARK := "... [truncated head]"
  const TAIL_MARK := "... [truncated tail]"

  /** The window's lines, with a line before and after for what is left out. */
  function Marked(lines: seq<string>, lo: nat, hi: nat): seq<string>
    requires lo <= hi < |lines|
  {
    (if lo > 0 then [HEAD_MARK] else []) + lines[lo..hi + 1] + (if hi + 1 < |lines| then [TAIL_MARK] else [])
  }

  method TruncateAroundLine(code: string, targetLine: int, budget: int) returns (text: string, ghost lo: nat, ghost hi: nat)
    ensures BestWindow(Split(code), budget, Clamp(targetLine, |Split(code)|), lo, hi)
    ensures text == Join(Marked(Split(code), lo, hi))
  {
    var lines := Split(code);
    var target := Clamp(targetLine, |lines|);
    var l, h := GrowWindow(lines, target, budget);
    lo, hi := l, h;
    text := "";
    if l > 0 {
      text := HEAD_MARK + "\n";
    }
    text := text + Join(lines[l..h + 1]);
    if h < |lines| - 1 {
      text := text + ("\n" + TAIL_MARK);
    }
    JoinMarked(lines, l, h);
  }

  lemma JoinMarked(lines: seq<string>, lo: nat, hi: nat)
    requires lo <= hi < |lines|
    ensures var text := (if lo > 0 then HEAD_MARK + "\n" else "") + Join(lines[lo..hi + 1]);
      Join(Marked(lines, lo, hi)) == if hi + 1 < |lines| then text + ("\n" + TAIL_MARK) else text
  {
    var window := lines[lo..hi + 1];
    if hi + 1 < |lines| {
      JoinHead(lo > 0, window + [TAIL_MARK]);
      JoinTail(lo > 0, window);
      assert Marked(lines, lo, hi) == (if lo > 0 then [HEAD_MARK] else []) + (window + [TAIL_MARK]);
    } else {
      JoinHead(lo > 0, window);
      assert Marked(lines, lo, hi) == (if lo > 0 then [HEAD_MARK] else []) + window;
    }
  }

  lemma JoinHead(cut: bool, window: seq<string>)
    requires window != []
    ensures Join((if cut then [HEAD_MARK] else []) + window) == (if cut then HEAD_MARK + "\n" else "") + Join(window)
  {
    if cut {
      JoinCons(HEAD_MARK, window);
    } else {
      assert [] + window == window;
    }
  }

  lemma JoinTail(cut: bool, window: seq<string>)
    requires window != []
    ensures var head := if cut then HEAD_MARK + "\n" else "";
      head + Join(window + [TAIL_MARK]) == head + Join(window) + ("\n" + TAIL_MARK)
  {
    JoinSnoc(window, TAIL_MARK);
    Regroup(if cut then HEAD_MARK + "\n" else "", Join(window), "\n", TAIL_MARK);
  }

  lemma Regroup(a: string, b: string, c: string, d: string)
    ensures a + (b + c + d) == a + b + (c + d)
  {
  }

  /** One round: each side is grown if it can be, the tail first. */
  lemma RoundKeepsBalance(lines: seq<string>, budget: int, target: nat, lo: nat, hi: nat)
    requires lo <= target <= hi < |lines| && Balanced(lines, budget, target, lo, hi)
    ensures var hi' := if TailStops(lines, budget, lo, hi) then hi else hi + 1;
      var lo' := if HeadStops(lines, budget, lo, hi') then lo else lo - 1;
      Balanced(lines, budget, target, lo', hi')
  {
    var hi' := if TailStops(lines, budget, lo, hi) then hi else hi + 1;
    var head, tail := target - lo, hi - target;
    if head < tail && lo > 0 {
      SizeIsMonotone(lines, lo - 1, target + head + 1, lo - 1, hi');
    } else if tail < head && hi + 1 < |lines| {
      SizeIsMonotone(lines, target - tail, hi + 1, lo, hi + 1);
    }
  }

  method GrowWindow(lines: seq<string>, target: nat, budget: int) returns (lo: nat, hi: nat)
    requires target < |lines|
    ensures BestWindow(lines, budget, target, lo, hi)
  {
    lo, hi := target, target;
    var size := |lines[target]|;
    while true
      invariant lo <= target <= hi < |lines| && size == Size(lines, lo, hi)
      invariant size <= budget || (lo == target == hi)
      invariant Balanced(lines, budget, target, lo, hi)
      decreases |lines| - hi + lo
    {
      var grew := false;
      RoundKeepsBalance(lines, budget, target, lo, hi);
      if hi + 1 < |lines| {
        GrowTail(lines, lo, hi);
        if size + |lines[hi + 1]| + 1 <= budget {
          hi := hi + 1;
          size := size + |lines[hi]| + 1;
          grew := true;
        }
      }
      if lo > 0 {
        GrowHead(lines, lo, hi);
        if size + |lines[lo - 1]| + 1 <= budget {
          lo := lo - 1;
          size := size + |lines[lo]| + 1;
          grew := true;
        }
      }
      if !grew {
        break;
      }
    }
  }

  /** Every strictly larger window around the best one exceeds the budget. */
  lemma LargerWindowsExceed(lines: seq<string>, budget: int, target: nat, lo: nat, hi: nat, lower: nat, higher: nat)
    requires BestWindow(lines, budget, target, lo, hi)
    requires lower <= lo && hi <= higher < |lines| && (lower < lo || hi < higher)
    ensures Size(lines, lower, higher) > budget
  {
    if lower < lo {
      SizeIsMonotone(lines, lo - 1, hi, lower, higher);
    } else {
      SizeIsMonotone(lines, lo, hi + 1, lower, higher);
    }
  }

  /** There is only one best window. */
  lemma BestWindowIsUnique(lines: seq<string>, budget: int, target: nat, lo: nat, hi: nat, lo': nat, hi': nat)
    requires BestWindow(lines, budget, target, lo, hi) && BestWindow(lines, budget, target, lo', hi')
    ensures lo == lo' && hi == hi'
  {
    if (lo' <= lo && hi <= hi') || (lo <= lo' && hi' <= hi) {
      OneInsideTheOther(lines, budget, target, lo, hi, lo', hi');
    } else if lo < lo' {
      NotCrossing(lines, budget, target, lo, hi, lo', hi');
    } else {
      NotCrossing(lines, budget, target, lo', hi', lo, hi);
    }
  }

  lemma OneInsideTheOther(lines: seq<string>, budget: int, target: nat, lo: nat, hi: nat, lo': nat, hi': nat)
    requires BestWindow(lines, budget, target, lo, hi) && BestWindow(lines, budget, target, lo', hi')
    requires (lo' <= lo && hi <= hi') || (lo <= lo' && hi' <= hi)
    ensures lo == lo' && hi == hi'
  {
    if lo' <= lo && hi <= hi' && (lo' < lo || hi < hi') {
      LargerWindowsExceed(lines, budget, target, lo, hi, lo', hi');
    } else if lo <= lo' && hi' <= hi && (lo < lo' || hi' < hi) {
      LargerWindowsExceed(lines, budget, target, lo', hi', lo, hi);
    }
  }

  /** Of two windows that fit, the one with the longer head cannot have the shorter tail. */
  lemma NotCrossing(lines: seq<string>, budget: int, target: nat, lo: nat, hi: nat, lo': nat, hi': nat)
    requires BestWindow(lines, budget, target, lo, hi) && BestWindow(lines, budget, target, lo', hi')
    ensures !(lo < lo' && hi < hi')
  {
    if lo < lo' && hi < hi' {
      var head, tail, head', tail' := target - lo, hi - target, target - lo', hi' - target;
      if tail < head {
        // The longer head stopped the tail of the first window too early for the second to fit.
        if target - tail >= lo' {
          SizeIsMonotone(lines, target - tail, hi + 1, lo', hi');
        } else {
          assert head' < tail';
          SizeIsMonotone(lines, lo' - 1, target + head' + 1, lo, hi);
        }
      } else {
        assert head' < tail';
        SizeIsMonotone(lines, lo' - 1, target + head' + 1, lo, hi);
      }
    }
  }

  lemma WholeWindowIfItFits(lines: seq<string>, budget: int, target: nat, lo: nat, hi: nat)
    requires BestWindow(lines, budget, target, lo, hi) && |Join(lines)| <= budget
    ensures Marked(lines, lo, hi) == lines
  {
    assert lines[0..|lines|] == lines;
    if lo > 0 || hi + 1 < |lines| {
      LargerWindowsExceed(lines, budget, target, lo, hi, 0, |lines| - 1);
    }
  }

  /** The result is the code itself if that fits the budget. */
  lemma WholeCodeIfItFits(code: string, lines: seq<string>, budget: int, target: nat, lo: nat, hi: nat)
    requires lines == Split(code) && BestWindow(lines, budget, target, lo, hi) && |code| <= budget
    ensures Join(Marked(lines, lo, hi)) == code
  {
    JoinSplit(code);
    WholeWindowIfItFits(lines, budget, target, lo, hi);
  }

  /** The target is a line of the result, in its place after the head mark and the window's head. */
  lemma TargetSurvives(code: string, budget: int, target: nat, lo: nat, hi: nat)
    requires BestWindow(Split(code), budget, target, lo, hi)
    ensures var lines := Split(code);
      var result, at := Split(Join(Marked(lines, lo, hi))), target - lo + (if lo > 0 then 1 else 0);
      at < |result| && result[at] == lines[target]
  {
    SplitGivesSingleLines(code);
    MarkedLines(Split(code), target, lo, hi);
  }

  lemma MarkedLines(lines: seq<string>, target: nat, lo: nat, hi: nat)
    requires SingleLines(lines) && lo <= target <= hi < |lines|
    ensures var result, at := Split(Join(Marked(lines, lo, hi))), target - lo + (if lo > 0 then 1 else 0);
      at < |result| && result[at] == lines[target]
  {
    var marked, at := Marked(lines, lo, hi), target - lo + (if lo > 0 then 1 else 0);
    assert at < |marked| && marked[at] == lines[target];
    assert Split(Join(marked)) == marked by {
      MarkedAreSingle(lines, lo, hi);
      SplitJoin(marked);
    }
  }

  lemma MarkedAreSingle(lines: seq<string>, lo: nat, hi: nat)
    requires SingleLines(lines) && lo <= hi < |lines|
    ensures SingleLines(Marked(lines, lo, hi))
  {
  }
}
