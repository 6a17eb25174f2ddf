/** The text that gate 1 of the deduplication hashes (internal/dedup/gates.go). */
module KeyText {
  import opened Findings
  import opened Dedup

  function Digits(n: nat): (s: string)
    ensures s != ""
  {
    (if n < 10 then "" else Digits(n / 10)) + [(n % 10) as char + '0']
  }

  /** %d */
  function Decimal(n: int): string {
    if n < 0 then "-" + Digits(-n) else Digits(n)
  }

  /** CWE, path and start line with bars in between. */
  function Hashed(f: Finding): string {
    f.cwe + "|" + f.path + "|" + Decimal(f.start)
  }

  lemma {:induction false} DigitsAreDigits(n: nat)
    ensures forall c | c in Digits(n) :: '0' <= c <= '9'
  {
    if n >= 10 {
      DigitsAreDigits(n / 10);
    }
  }

  lemma {:induction false} DigitsAreInjective(n: nat, m: nat)
    requires Digits(n) == Digits(m)
    ensures n == m
  {
    var s, t := Digits(n), Digits(m);
    assert s[|s| - 1] == (n % 10) as char + '0' && t[|t| - 1] == (m % 10) as char + '0';
    assert s[..|s| - 1] == if n < 10 then "" else Digits(n / 10);
    assert t[..|t| - 1] == if m < 10 then "" else Digits(m / 10);
    if n >= 10 && m >= 10 {
      DigitsAreInjective(n / 10, m / 10);
    }
  }

  lemma DecimalIsInjective(n: int, m: int)
    requires Decimal(n) == Decimal(m)
    ensures n == m
  {
    DigitsAreDigits(if n < 0 then -n else n);
    DigitsAreDigits(if m < 0 then -m else m);
    assert Decimal(n)[0] == Decimal(m)[0];
    assert n >= 0 ==> Decimal(n)[0] in Digits(n);
    assert m >= 0 ==> Decimal(m)[0] in Digits(m);
    if n < 0 {
      assert Decimal(n)[1..] == Digits(-n) && Decimal(m)[1..] == Digits(-m);
      DigitsAreInjective(-n, -m);
    } else {
      DigitsAreInjective(n, m);
    }
  }

  lemma DecimalHasNoBar(n: int)
    ensures '|' !in Decimal(n)
  {
    DigitsAreDigits(if n < 0 then -n else n);
  }

  /** Behind a longer head, a bar lies within the shorter one's tail. */
  lemma LastPartIsLonger(a: string, b: string, x: string, y: string)
    requires a + "|" + x == b + "|" + y && |a| < |b|
    ensures '|' in x
  {
    assert (a + "|" + x)[|b|] == (b + "|" + y)[|b|] == '|';
    assert x[|b| - |a| - 1] == (a + "|" + x)[|b|];
  }

  /** A text comes apart at its last bar in one way only. */
  lemma LastPart(a: string, b: string, x: string, y: string)
    requires a + "|" + x == b + "|" + y && '|' !in x && '|' !in y
    ensures a == b && x == y
  {
    if |a| < |b| {
      LastPartIsLonger(a, b, x, y);
    } else if |b| < |a| {
      LastPartIsLonger(b, a, y, x);
    } else {
      var s, t := a + "|" + x, b + "|" + y;
      assert s[..|a|] == a && t[..|b|] == b && s[|a| + 1..] == x && t[|b| + 1..] == y;
    }
  }

  /** The second's CWE is the first's with a bar and the head of the first's path behind it. */
  ghost predicate Shifts(a: Finding, b: Finding) {
    exists x :: b.cwe == a.cwe + "|" + x && a.path == x + "|" + b.path
  }

  /** Two findings have the same text exactly if they agree on CWE, path and start line, or on the
      line alone and a bar in one's CWE takes in the head of the other's path. */
  lemma TextsAgreeExactlyWhen(a: Finding, b: Finding)
    ensures Hashed(a) == Hashed(b) <==>
      Gate1Key(a) == Gate1Key(b) || (a.start == b.start && (Shifts(a, b) || Shifts(b, a)))
  {
    if Hashed(a) == Hashed(b) {
      DecimalHasNoBar(a.start);
      DecimalHasNoBar(b.start);
      LastPart(a.cwe + "|" + a.path, b.cwe + "|" + b.path, Decimal(a.start), Decimal(b.start));
      DecimalIsInjective(a.start, b.start);
      if |a.cwe| <= |b.cwe| {
        FirstParts(a, b);
      } else {
        FirstParts(b, a);
      }
    }
    if a.start == b.start && Shifts(a, b) {
      ShiftedAgree(a, b);
    }
    if a.start == b.start && Shifts(b, a) {
      ShiftedAgree(b, a);
    }
  }

  lemma FirstParts(a: Finding, b: Finding)
    requires a.cwe + "|" + a.path == b.cwe + "|" + b.path && |a.cwe| <= |b.cwe|
    ensures (a.cwe == b.cwe && a.path == b.path) || Shifts(a, b)
  {
    var s, t := a.cwe + "|" + a.path, b.cwe + "|" + b.path;
    var n, m := |a.cwe|, |b.cwe|;
    assert s[..n] == a.cwe && s[n + 1..] == a.path && t[..m] == b.cwe && t[m + 1..] == b.path;
    if n < m {
      var x := t[n + 1..m];
      assert b.cwe == t[..n] + [t[n]] + x && t[n] == '|';
      assert a.path == x + [s[m]] + s[m + 1..] && s[m] == '|';
    }
  }

  lemma ShiftedAgree(a: Finding, b: Finding)
    requires a.start == b.start && Shifts(a, b)
    ensures Hashed(a) == Hashed(b)
  {
    var x :| b.cwe == a.cwe + "|" + x && a.path == x + "|" + b.path;
    assert a.cwe + "|" + (x + "|" + b.path) == (a.cwe + "|" + x) + "|" + b.path;
  }

  /** In particular the text tells findings apart whose CWEs have no bar. */
  lemma NoBarsNoShift(a: Finding, b: Finding)
    requires '|' !in a.cwe && '|' !in b.cwe
    ensures Hashed(a) == Hashed(b) <==> Gate1Key(a) == Gate1Key(b)
  {
    TextsAgreeExactlyWhen(a, b);
    forall x: string, y: string ensures '|' in x + "|" + y {
      assert (x + "|" + y)[|x|] == '|';
    }
  }
}
