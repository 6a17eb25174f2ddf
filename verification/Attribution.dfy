/** Walk-up attribution: a taint path whose source method is no attack surface is given to its
    nearest calling surface, unless that is ambiguous (internal/semantic/enrichment/enrichment.go). */
module Attribution {
  import opened Findings
  import opened Walks

  const MAX_WALK := 6
  const MAX_SINK_FAN_IN := 3

  /** What the early stop leaves of the loop bound: a level without a surface ends the walk from
      the third level on. */
  const REACH := 3

  datatype TaintPath = TaintPath(source: Id, sink: Id)

  datatype Candidate = Candidate(caller: Id, path: TaintPath)

  /** matched are all surfaces at distance n, and no surface is nearer. */
  ghost predicate NearestLevel(adj: Id -> seq<Id>, surfaces: set<Id>, source: Id, n: nat, matched: seq<Id>) {
    && Distinct(matched)
    && (forall x :: x in matched <==> x in surfaces && Exactly(adj, source, x, n))
    && (forall s | s in surfaces :: n > 0 ==> !Within(adj, source, s, n - 1))
  }

  /** c is the one surface at minimal distance from source, at most three calls up. */
  ghost predicate UniqueNearest(adj: Id -> seq<Id>, surfaces: set<Id>, source: Id, c: Id) {
    && c in surfaces
    && exists n: nat :: 1 <= n <= REACH && Exactly(adj, source, c, n)
         && forall s | s in surfaces && s != c :: !Within(adj, source, s, n)
  }

  /** What the search upward gives: a surface exactly if one lies within three calls, and then all
      the nearest ones. */
  ghost predicate Finds(adj: Id -> seq<Id>, surfaces: set<Id>, source: Id, matched: seq<Id>) {
    && (matched == [] ==> forall s | s in surfaces :: !Within(adj, source, s, REACH))
    && (matched != [] ==> exists n: nat :: 1 <= n <= REACH && NearestLevel(adj, surfaces, source, n, matched))
  }

  method ExpandUp(g: Callers, surfaces: set<Id>, queue: seq<Id>, visited: set<Id>)
    returns (next: seq<Id>, matched: seq<Id>)
    ensures Distinct(next) && forall x :: x in next <==> x !in visited && Adjacent(g.Of, queue, x)
    ensures Distinct(matched) && forall x :: x in matched <==> x in next && x in surfaces
  {
    var seen := visited;
    next, matched := [], [];
    var i := 0;
    while i < |queue|
      invariant 0 <= i <= |queue|
      invariant Distinct(next) && seen == visited + set x | x in next
      invariant forall x :: x in next <==> x !in visited && Adjacent(g.Of, queue[..i], x)
      invariant Distinct(matched) && forall x :: x in matched <==> x in next && x in surfaces
    {
      var callers := g.Of(queue[i]);
      ghost var before := next;
      var j := 0;
      while j < |callers|
        invariant 0 <= j <= |callers|
        invariant Distinct(next) && seen == visited + set x | x in next
        invariant forall x :: x in next <==> x in before || (x !in visited && x in callers[..j])
        invariant Distinct(matched) && forall x :: x in matched <==> x in next && x in surfaces
      {
        var caller := callers[j];
        if caller !in seen {
          seen := seen + {caller};
          if caller in surfaces {
            matched := matched + [caller];
          }
          next := next + [caller];
        }
        j := j + 1;
      }
      assert callers[..j] == callers;
      AdjacentSnoc(g.Of, queue, i);
      i := i + 1;
    }
    assert queue[..i] == queue;
  }

  /** The search upward from one taint source. */
  method WalkUp(g: Callers, surfaces: set<Id>, source: Id) returns (matched: seq<Id>)
    requires source !in surfaces
    ensures Finds(g.Of, surfaces, source, matched)
  {
    var visited, queue := {source}, [source];
    matched := [];
    var depth := 0;
    StartLevel(g.Of, source);
    while depth < MAX_WALK && queue != [] && matched == []
      invariant 0 <= depth <= REACH
      invariant AtLevel(g.Of, source, depth, visited, queue)
      invariant matched == [] ==> depth < REACH && forall s | s in surfaces :: s !in visited
      invariant matched != [] ==> depth >= 1 && NearestLevel(g.Of, surfaces, source, depth, matched)
      decreases MAX_WALK - depth
    {
      var next, found := ExpandUp(g, surfaces, queue, visited);
      NextLevel(g.Of, source, depth, visited, queue, next);
      matched := found;
      visited := visited + set x | x in next;
      if matched == [] && depth >= 2 {
        forall s | s in surfaces ensures !Within(g.Of, source, s, REACH) {
          assert s !in matched;
        }
        return;
      }
      queue := next;
      depth := depth + 1;
    }
    if matched == [] {
      assert forall x :: x in queue <==> Exactly(g.Of, source, x, depth);
      NothingBeyondAnEmptyLevel(g.Of, source, depth, REACH);
    }
  }

  /** A single match is the unique nearest surface, and without one there is none. */
  lemma SingleMatchIsUnique(adj: Id -> seq<Id>, surfaces: set<Id>, source: Id, matched: seq<Id>, c: Id)
    requires source !in surfaces && Finds(adj, surfaces, source, matched)
    ensures UniqueNearest(adj, surfaces, source, c) <==> matched == [c]
  {
    if matched == [c] {
      var n: nat :| 1 <= n <= REACH && NearestLevel(adj, surfaces, source, n, matched);
      assert c in matched;
      forall s | s in surfaces && s != c ensures !Within(adj, source, s, n) {
        assert s !in matched;
      }
    }
    if UniqueNearest(adj, surfaces, source, c) {
      var k: nat :| 1 <= k <= REACH && Exactly(adj, source, c, k)
                    && forall s | s in surfaces && s != c :: !Within(adj, source, s, k);
      WithinIsMonotone(adj, source, c, k, REACH);
      var n: nat :| 1 <= n <= REACH && NearestLevel(adj, surfaces, source, n, matched);
      if k < n {
        WithinIsMonotone(adj, source, c, k, n - 1);
      }
      forall x | x in matched ensures x == c {
        if x != c {
          WithinIsMonotone(adj, source, x, n, k);
        }
      }
      OneElement(matched, c);
    }
  }

  // ---- A surface within the loop bound that is not found ----------------------------------

  const CHAIN: seq<Id> := ["m", "a", "b", "c", "s"]

  /** Every method of the chain is called by the next one only. */
  function ChainCallers(id: Id): Option<seq<Id>> {
    if id == "m" then Some(["a"]) else if id == "a" then Some(["b"]) else if id == "b" then Some(["c"])
    else if id == "c" then Some(["s"]) else Some([])
  }

  lemma ChainStep(n: nat, x: Id)
    requires n < 4
    ensures x in Callers(ChainCallers).Of(CHAIN[n]) <==> x == CHAIN[n + 1]
  {
  }

  lemma {:induction false} ChainWalk(n: nat, x: Id)
    requires n <= 4
    ensures Walk(Callers(ChainCallers).Of, "m", x, n) <==> x == CHAIN[n]
  {
    var adj := Callers(ChainCallers).Of;
    if n > 0 {
      ChainWalk(n - 1, CHAIN[n - 1]);
      ChainStep(n - 1, x);
      if Walk(adj, "m", x, n) {
        var m := LastStep(adj, "m", x, n);
        ChainWalk(n - 1, m);
      }
    }
  }

  lemma EndOfChain()
    ensures Exactly(Callers(ChainCallers).Of, "m", "s", 4)
  {
    var adj := Callers(ChainCallers).Of;
    ChainWalk(4, "s");
    forall k: nat | k <= 3 ensures !Walk(adj, "m", "s", k) {
      ChainWalk(k, "s");
      assert CHAIN[k] != "s";
    }
  }

  /** Nothing is found exactly if no surface lies within three calls. */
  lemma FindsNothingExactlyWhen(adj: Id -> seq<Id>, surfaces: set<Id>, source: Id, matched: seq<Id>)
    requires Finds(adj, surfaces, source, matched)
    ensures matched == [] <==> forall s | s in surfaces :: !Within(adj, source, s, 3)
  {
    if matched != [] {
      var n: nat :| 1 <= n <= REACH && NearestLevel(adj, surfaces, source, n, matched);
      assert matched[0] in matched;
      WithinIsMonotone(adj, source, matched[0], n, REACH);
    }
  }

  /** With the only surface exactly four callers up, the search finds none, although its loop is
      written for six levels. */
  lemma FourCallersUpIsTooFar(adj: Id -> seq<Id>, matched: seq<Id>)
    requires adj == Callers(ChainCallers).Of && Finds(adj, {"s"}, "m", matched)
    ensures Exactly(adj, "m", "s", 4) && 4 < MAX_WALK
    ensures matched == []
  {
    EndOfChain();
    FindsNothingExactlyWhen(adj, {"s"}, "m", matched);
  }

  lemma OneElement(ids: seq<Id>, c: Id)
    requires Distinct(ids) && ids != [] && forall x | x in ids :: x == c
    ensures ids == [c]
  {
    assert ids[0] in ids && ids[|ids| - 1] in ids;
    assert ids[0] == ids[|ids| - 1];
  }

  /** The path takes part in walk-up: it has a source, and that is not itself a surface. */
  predicate Indirect(surfaces: set<Id>, p: TaintPath) {
    p.source != "" && p.source !in surfaces
  }

  /** The surfaces that candidates name for a sink. */
  function Claims(candidates: seq<Candidate>, sink: Id): set<Id> {
    set i | 0 <= i < |candidates| && candidates[i].path.sink == sink :: candidates[i].caller
  }

  function WithinFanIn(candidates: seq<Candidate>, all: seq<Candidate>): seq<Candidate> {
    if candidates == [] then []
    else
      var last := candidates[|candidates| - 1];
      WithinFanIn(candidates[..|candidates| - 1], all) +
      if |Claims(all, last.path.sink)| <= MAX_SINK_FAN_IN then [last] else []
  }

  /** The candidates are, in path order, the indirect paths with a unique nearest surface. */
  ghost predicate AreCandidates(adj: Id -> seq<Id>, surfaces: set<Id>, paths: seq<TaintPath>, candidates: seq<Candidate>, from: seq<nat>) {
    && |from| == |candidates|
    && (forall i, j | 0 <= i < j < |from| :: from[i] < from[j])
    && (forall i | 0 <= i < |from| :: from[i] < |paths| && candidates[i].path == paths[from[i]]
          && Indirect(surfaces, paths[from[i]])
          && UniqueNearest(adj, surfaces, paths[from[i]].source, candidates[i].caller))
    && (forall k, c | 0 <= k < |paths| && Indirect(surfaces, paths[k]) && UniqueNearest(adj, surfaces, paths[k].source, c) ::
          k in from)
  }

  /** The surface a path is given to, or None when there is no nearest one or several. */
  method NearestSurface(g: Callers, surfaces: set<Id>, source: Id) returns (c: Option<Id>)
    requires source !in surfaces
    ensures c.Some? ==> UniqueNearest(g.Of, surfaces, source, c.value)
    ensures c == None ==> forall x :: !UniqueNearest(g.Of, surfaces, source, x)
  {
    var matched := WalkUp(g, surfaces, source);
    forall x ensures UniqueNearest(g.Of, surfaces, source, x) <==> matched == [x] {
      SingleMatchIsUnique(g.Of, surfaces, source, matched, x);
    }
    if |matched| == 1 {
      assert matched == [matched[0]];
      return Some(matched[0]);
    }
    return None;
  }

  method FindCandidates(g: Callers, surfaces: set<Id>, paths: seq<TaintPath>)
    returns (candidates: seq<Candidate>, fanIn: map<Id, set<Id>>, ghost from: seq<nat>)
    ensures AreCandidates(g.Of, surfaces, paths, candidates, from)
    ensures forall sink :: (if sink in fanIn then fanIn[sink] else {}) == Claims(candidates, sink)
  {
    candidates, from, fanIn := [], [], map[];
    var i := 0;
    while i < |paths|
      invariant 0 <= i <= |paths|
      invariant AreCandidates(g.Of, surfaces, paths[..i], candidates, from)
      invariant forall sink :: (if sink in fanIn then fanIn[sink] else {}) == Claims(candidates, sink)
    {
      var p := paths[i];
      var c: Option<Id> := None;
      if Indirect(surfaces, p) {
        c := NearestSurface(g, surfaces, p.source);
      }
      CandidatesSnoc(g.Of, surfaces, paths, i, candidates, from, c);
      if c.Some? {
        ClaimsSnoc(candidates, Candidate(c.value, p));
        fanIn := fanIn[p.sink := (if p.sink in fanIn then fanIn[p.sink] else {}) + {c.value}];
        candidates, from := candidates + [Candidate(c.value, p)], from + [i];
      }
      i := i + 1;
    }
    assert paths[..i] == paths;
  }

  /** The guard against sinks with many claimants. */
  method GuardFanIn(candidates: seq<Candidate>, fanIn: map<Id, set<Id>>) returns (committed: seq<Candidate>, dropped: nat)
    requires forall i | 0 <= i < |candidates| ::
      candidates[i].path.sink in fanIn && fanIn[candidates[i].path.sink] == Claims(candidates, candidates[i].path.sink)
    ensures committed == WithinFanIn(candidates, candidates)
    ensures |candidates| == |committed| + dropped
  {
    committed, dropped := [], 0;
    var j := 0;
    while j < |candidates|
      invariant 0 <= j <= |candidates|
      invariant committed == WithinFanIn(candidates[..j], candidates)
      invariant j == |committed| + dropped
    {
      assert candidates[..j + 1][..j] == candidates[..j];
      var c := candidates[j];
      if |fanIn[c.path.sink]| > MAX_SINK_FAN_IN {
        dropped := dropped + 1;
      } else {
        committed := committed + [c];
      }
      j := j + 1;
    }
    assert candidates[..j] == candidates;
  }

  /** The attribution pass. */
  method Attribute(g: Callers, surfaces: set<Id>, paths: seq<TaintPath>)
    returns (committed: seq<Candidate>, dropped: nat, candidates: seq<Candidate>, ghost from: seq<nat>)
    ensures AreCandidates(g.Of, surfaces, paths, candidates, from)
    ensures committed == WithinFanIn(candidates, candidates)
    ensures |candidates| == |committed| + dropped
  {
    var fanIn;
    candidates, fanIn, from := FindCandidates(g, surfaces, paths);
    forall i | 0 <= i < |candidates|
      ensures candidates[i].path.sink in fanIn && fanIn[candidates[i].path.sink] == Claims(candidates, candidates[i].path.sink)
    {
      assert candidates[i].caller in Claims(candidates, candidates[i].path.sink);
    }
    committed, dropped := GuardFanIn(candidates, fanIn);
  }

  lemma ClaimsSnoc(candidates: seq<Candidate>, c: Candidate)
    ensures forall sink :: Claims(candidates + [c], sink)
                        == Claims(candidates, sink) + if sink == c.path.sink then {c.caller} else {}
  {
    var longer := candidates + [c];
    forall sink ensures Claims(longer, sink) == Claims(candidates, sink) + if sink == c.path.sink then {c.caller} else {} {
      forall x | x in Claims(candidates, sink) ensures x in Claims(longer, sink) {
        var i :| 0 <= i < |candidates| && candidates[i].path.sink == sink && candidates[i].caller == x;
        assert longer[i].path.sink == sink && longer[i].caller == x;
      }
      assert longer[|candidates|] == c;
    }
  }

  /** One more path adds its candidate, if it has one. */
  lemma CandidatesSnoc(adj: Id -> seq<Id>, surfaces: set<Id>, paths: seq<TaintPath>, i: nat,
                       candidates: seq<Candidate>, from: seq<nat>, c: Option<Id>)
    requires i < |paths| && AreCandidates(adj, surfaces, paths[..i], candidates, from)
    requires c.Some? ==> Indirect(surfaces, paths[i]) && UniqueNearest(adj, surfaces, paths[i].source, c.value)
    requires c == None && Indirect(surfaces, paths[i]) ==> forall x :: !UniqueNearest(adj, surfaces, paths[i].source, x)
    ensures c == None ==> AreCandidates(adj, surfaces, paths[..i + 1], candidates, from)
    ensures c.Some? ==> AreCandidates(adj, surfaces, paths[..i + 1], candidates + [Candidate(c.value, paths[i])], from + [i])
  {
    var longer := paths[..i + 1];
    assert forall k | 0 <= k < i :: longer[k] == paths[..i][k];
    assert longer[i] == paths[i];
    if c.Some? {
      assert (from + [i])[|from|] == i;
      assert forall k | k in from :: k in from + [i];
    }
  }

  lemma ClaimsAre(all: seq<Candidate>, sink: Id)
    ensures Claims(all, sink) == set other | other in all && other.path.sink == sink :: other.caller
  {
    forall other | other in all && other.path.sink == sink ensures other.caller in Claims(all, sink) {
      var i :| 0 <= i < |all| && all[i] == other;
    }
  }

  /** Every committed attribution is to the unique nearest surface of its path, at most three
      calls up, and its sink is claimed by at most three surfaces; every candidate whose sink is
      claimed by at most three is committed. */
  lemma {:induction false} CommittedExactlyWithinFanIn(candidates: seq<Candidate>, all: seq<Candidate>, c: Candidate)
    ensures c in WithinFanIn(candidates, all)
        <==> c in candidates && |set other | other in all && other.path.sink == c.path.sink :: other.caller| <= 3
  {
    ClaimsAre(all, c.path.sink);
    if candidates != [] {
      var last := |candidates| - 1;
      CommittedExactlyWithinFanIn(candidates[..last], all, c);
      assert candidates == candidates[..last] + [candidates[last]];
    }
  }
}
