/** Walks in a call graph given by adjacency lists, and what one more level of a level-by-level
    search adds. The three bounded searches of the code base are measured against these. */
module Walks {
  import opened Findings

  type Id = string

  /** The caller lists; a failed query contributes none. */
  datatype Callers = Callers(query: Id -> Option<seq<Id>>)
  {
    function Of(id: Id): seq<Id> {
      if query(id) == None then [] else query(id).value
    }
  }

  /** There is a walk of exactly n steps from a to b. */
  ghost predicate Walk(adj: Id -> seq<Id>, a: Id, b: Id, n: nat)
    decreases n
  {
    if n == 0 then a == b else exists m :: Walk(adj, a, m, n - 1) && b in adj(m)
  }

  /** b is at most n steps away from a. */
  ghost predicate Within(adj: Id -> seq<Id>, a: Id, b: Id, n: nat) {
    exists k: nat :: k <= n && Walk(adj, a, b, k)
  }

  /** b is n steps away from a and no fewer. */
  ghost predicate Exactly(adj: Id -> seq<Id>, a: Id, b: Id, n: nat) {
    Within(adj, a, b, n) && (n > 0 ==> !Within(adj, a, b, n - 1))
  }

  lemma WithinIsMonotone(adj: Id -> seq<Id>, a: Id, b: Id, n: nat, n': nat)
    requires Within(adj, a, b, n) && n <= n'
    ensures Within(adj, a, b, n')
  {
    var k: nat :| k <= n && Walk(adj, a, b, k);
  }

  lemma OneMoreStep(adj: Id -> seq<Id>, a: Id, m: Id, b: Id, n: nat)
    requires Within(adj, a, m, n) && b in adj(m)
    ensures Within(adj, a, b, n + 1)
  {
    var k: nat :| k <= n && Walk(adj, a, m, k);
    assert Walk(adj, a, b, k + 1);
  }

  lemma LastStep(adj: Id -> seq<Id>, a: Id, b: Id, n: nat) returns (m: Id)
    requires n > 0 && Walk(adj, a, b, n)
    ensures Walk(adj, a, m, n - 1) && b in adj(m)
  {
    m :| Walk(adj, a, m, n - 1) && b in adj(m);
  }

  lemma {:induction false} WalkConcat(adj: Id -> seq<Id>, a: Id, m: Id, b: Id, i: nat, j: nat)
    requires Walk(adj, a, m, i) && Walk(adj, m, b, j)
    ensures Walk(adj, a, b, i + j)
    decreases j
  {
    if j > 0 {
      var x :| Walk(adj, m, x, j - 1) && b in adj(x);
      WalkConcat(adj, a, m, x, i, j - 1);
    }
  }

  lemma WithinZero(adj: Id -> seq<Id>, a: Id)
    ensures Within(adj, a, a, 0)
  {
    assert Walk(adj, a, a, 0);
  }

  lemma WithinConcat(adj: Id -> seq<Id>, a: Id, m: Id, b: Id, n: nat, n': nat)
    requires Within(adj, a, m, n) && Within(adj, m, b, n')
    ensures Within(adj, a, b, n + n')
  {
    var i: nat :| i <= n && Walk(adj, a, m, i);
    var j: nat :| j <= n' && Walk(adj, m, b, j);
    WalkConcat(adj, a, m, b, i, j);
  }

  /** A node is within n + 1 steps exactly if it is within n steps or adjacent to a node that is
      exactly n steps away: the frontier is all a search needs to look at. */
  lemma FrontierSuffices(adj: Id -> seq<Id>, a: Id, b: Id, n: nat)
    ensures Within(adj, a, b, n + 1)
        <==> Within(adj, a, b, n) || exists m :: Exactly(adj, a, m, n) && b in adj(m)
  {
    if Within(adj, a, b, n + 1) && !Within(adj, a, b, n) {
      var k: nat :| k <= n + 1 && Walk(adj, a, b, k);
      var m :| Walk(adj, a, m, k - 1) && b in adj(m);
      assert Within(adj, a, m, n);
      if n > 0 && Within(adj, a, m, n - 1) {
        OneMoreStep(adj, a, m, b, n - 1);
      }
      assert Exactly(adj, a, m, n);
    }
    if Within(adj, a, b, n) {
      WithinIsMonotone(adj, a, b, n, n + 1);
    }
    if m :| Exactly(adj, a, m, n) && b in adj(m) {
      OneMoreStep(adj, a, m, b, n);
    }
  }

  /** Once a level is empty nothing lies beyond it. */
  lemma {:induction false} NothingBeyondAnEmptyLevel(adj: Id -> seq<Id>, a: Id, n: nat, n': nat)
    requires n <= n' && forall x :: !Exactly(adj, a, x, n)
    ensures forall x :: Within(adj, a, x, n') <==> Within(adj, a, x, n)
    decreases n' - n
  {
    if n < n' {
      forall x ensures Within(adj, a, x, n + 1) <==> Within(adj, a, x, n) {
        FrontierSuffices(adj, a, x, n);
      }
      NothingBeyondAnEmptyLevel(adj, a, n + 1, n');
    }
  }

  predicate Distinct(s: seq<Id>) {
    forall i, j | 0 <= i < j < |s| :: s[i] != s[j]
  }

  ghost predicate Adjacent(adj: Id -> seq<Id>, frontier: seq<Id>, x: Id) {
    exists h | 0 <= h < |frontier| :: x in adj(frontier[h])
  }

  /** visited and frontier are what a search from a holds after n levels. */
  ghost predicate AtLevel(adj: Id -> seq<Id>, a: Id, n: nat, visited: set<Id>, frontier: seq<Id>) {
    && (forall x :: x in visited <==> Within(adj, a, x, n))
    && (forall x :: x in frontier <==> Exactly(adj, a, x, n))
    && Distinct(frontier)
  }

  lemma StartLevel(adj: Id -> seq<Id>, a: Id)
    ensures AtLevel(adj, a, 0, {a}, [a])
  {
    forall x ensures Within(adj, a, x, 0) <==> x == a {
      if x == a {
        assert Walk(adj, a, x, 0);
      }
    }
  }

  /** The fresh neighbours of a level's frontier are the next level. */
  lemma NextLevel(adj: Id -> seq<Id>, a: Id, n: nat, visited: set<Id>, frontier: seq<Id>, next: seq<Id>)
    requires AtLevel(adj, a, n, visited, frontier)
    requires Distinct(next) && forall x :: x in next <==> x !in visited && Adjacent(adj, frontier, x)
    ensures AtLevel(adj, a, n + 1, visited + (set x | x in next), next)
  {
    forall x ensures Within(adj, a, x, n + 1) <==> x in visited || Adjacent(adj, frontier, x) {
      FrontierSuffices(adj, a, x, n);
      if m :| Exactly(adj, a, m, n) && x in adj(m) {
        var h :| 0 <= h < |frontier| && frontier[h] == m;
        assert x in adj(frontier[h]);
      }
      if Adjacent(adj, frontier, x) {
        var h :| 0 <= h < |frontier| && x in adj(frontier[h]);
        assert frontier[h] in frontier;
      }
    }
  }

  /** Nothing outside a set that is closed under adjacency is reached from inside it. */
  lemma {:induction false} ClosedSetsContainWalks(adj: Id -> seq<Id>, a: Id, b: Id, n: nat, closed: set<Id>)
    requires a in closed && forall m, x | m in closed && x in adj(m) :: x in closed
    requires Walk(adj, a, b, n)
    ensures b in closed
    decreases n
  {
    if n > 0 {
      var m :| Walk(adj, a, m, n - 1) && b in adj(m);
      ClosedSetsContainWalks(adj, a, m, n - 1, closed);
    }
  }

  lemma AdjacentSnoc(adj: Id -> seq<Id>, frontier: seq<Id>, i: nat)
    requires i < |frontier|
    ensures forall x :: Adjacent(adj, frontier[..i + 1], x) <==> Adjacent(adj, frontier[..i], x) || x in adj(frontier[i])
  {
    forall x | Adjacent(adj, frontier[..i], x) || x in adj(frontier[i]) ensures Adjacent(adj, frontier[..i + 1], x) {
      if x in adj(frontier[i]) {
        assert x in adj(frontier[..i + 1][i]);
      } else {
        var h :| 0 <= h < i && x in adj(frontier[..i][h]);
        assert x in adj(frontier[..i + 1][h]);
      }
    }
  }

  // ---- Paths of a relation --------------------------------------------------------------------

  /** There is a path of exactly n calls from a to b. */
  ghost predicate Path(call: (Id, Id) -> bool, a: Id, b: Id, n: nat)
    decreases n
  {
    if n == 0 then a == b else exists m :: Path(call, a, m, n - 1) && call(m, b)
  }

  /** There is a path of n calls from a to b with no stop strictly in between. */
  ghost predicate Detour(call: (Id, Id) -> bool, stop: Id -> bool, a: Id, b: Id, n: nat)
    decreases n
  {
    if n == 0 then a == b
    else exists m :: Detour(call, stop, a, m, n - 1) && (n > 1 ==> !stop(m)) && call(m, b)
  }

  lemma {:induction false} WalkIsAPath(adj: Id -> seq<Id>, call: (Id, Id) -> bool, a: Id, b: Id, n: nat)
    requires Walk(adj, a, b, n) && forall m, x | x in adj(m) :: call(m, x)
    ensures Path(call, a, b, n)
    decreases n
  {
    if n > 0 {
      var m := LastStep(adj, a, b, n);
      WalkIsAPath(adj, call, a, m, n - 1);
    }
  }

  lemma {:induction false} DetourIsAPath(call: (Id, Id) -> bool, stop: Id -> bool, a: Id, b: Id, n: nat)
    requires Detour(call, stop, a, b, n)
    ensures Path(call, a, b, n)
    decreases n
  {
    if n > 0 {
      var m :| Detour(call, stop, a, m, n - 1) && (n > 1 ==> !stop(m)) && call(m, b);
      DetourIsAPath(call, stop, a, m, n - 1);
    }
  }

  /** A path from a stop, cut at its last stop: what follows is a detour. */
  lemma {:induction false} LastStop(call: (Id, Id) -> bool, stop: Id -> bool, a: Id, b: Id, n: nat) returns (w: Id, j: nat)
    requires stop(a) && n > 0 && Path(call, a, b, n)
    ensures 0 < j <= n && stop(w) && Path(call, a, w, n - j) && Detour(call, stop, w, b, j)
    decreases n
  {
    var m := LastCall(call, a, b, n);
    if stop(m) {
      w, j := m, 1;
      assert Detour(call, stop, m, m, 0);
    } else {
      var k;
      w, k := LastStop(call, stop, a, m, n - 1);
      j := k + 1;
    }
  }

  lemma PathStep(call: (Id, Id) -> bool, a: Id, m: Id, b: Id, n: nat)
    requires Path(call, a, m, n) && call(m, b)
    ensures Path(call, a, b, n + 1)
  {
  }

  lemma LastCall(call: (Id, Id) -> bool, a: Id, b: Id, n: nat) returns (m: Id)
    requires n > 0 && Path(call, a, b, n)
    ensures Path(call, a, m, n - 1) && call(m, b)
  {
    m :| Path(call, a, m, n - 1) && call(m, b);
  }

  /** Detours up to the limit between a stop and a node are matched by walks. */
  ghost predicate Matched(adj: Id -> seq<Id>, call: (Id, Id) -> bool, stop: Id -> bool, node: Id -> bool, limit: nat) {
    forall a, b, k: nat | stop(a) && node(b) && k <= limit && Detour(call, stop, a, b, k) :: Within(adj, a, b, k)
  }

  /** Then so are whole paths, cut at their stops. */
  lemma {:induction false} DetoursMakeAWalk(
    adj: Id -> seq<Id>, call: (Id, Id) -> bool, stop: Id -> bool, node: Id -> bool, limit: nat, a: Id, b: Id, n: nat)
    requires Matched(adj, call, stop, node, limit) && forall id | stop(id) :: node(id)
    requires stop(a) && node(b) && n <= limit && Path(call, a, b, n)
    ensures Within(adj, a, b, n)
    decreases n
  {
    if n == 0 {
      WithinZero(adj, a);
    } else {
      var w, j := LastStop(call, stop, a, b, n);
      DetoursMakeAWalk(adj, call, stop, node, limit, a, w, n - j);
      WithinConcat(adj, a, w, b, n - j, j);
    }
  }
}
