/** The bidirectional neighbour search over the call graph and its recursive-query twin
    (internal/cpg_engine/graph_impl.go, pkg/postgres/cpg.go). */
module Neighbours {
  import opened Findings
  import opened Walks
  import Text

  const MAX_DEPTH := 6

  datatype Answer = Nodes(ids: seq<Id>) | DepthExceeded | EmptyRoot | QueryFailed

  /** The raw replies to the caller and callee queries; None is a failed query. */
  datatype Graph = Graph(callers: Id -> Option<seq<Id>>, callees: Id -> Option<seq<Id>>)
  {
    /** An empty ID is an error; an ID with a leading minus is a synthetic node without edges. */
    function GetCallers(id: Id): Option<seq<Id>> {
      if id == "" then None else if Text.HasPrefix(id, "-") then Some([]) else callers(id)
    }

    function GetCallees(id: Id): Option<seq<Id>> {
      if id == "" then None else if Text.HasPrefix(id, "-") then Some([]) else callees(id)
    }

    predicate Fails(id: Id) {
      GetCallers(id) == None || GetCallees(id) == None
    }

    /** The neighbours the search sees. */
    function Adj(id: Id): seq<Id> {
      if Fails(id) then [] else GetCallers(id).value + GetCallees(id).value
    }
  }

  /** No later node is nearer to the root than an earlier one. */
  ghost predicate ByDistance(adj: Id -> seq<Id>, root: Id, ids: seq<Id>) {
    forall i, j, n: nat | 0 <= i <= j < |ids| && Within(adj, root, ids[j], n) :: Within(adj, root, ids[i], n)
  }

  /** The nodes to be found: everything but the root at most depth steps away, once each and
      nearer ones first. */
  ghost predicate IsNeighbourhood(adj: Id -> seq<Id>, root: Id, depth: nat, ids: seq<Id>) {
    && (forall x :: x in ids <==> x != root && Within(adj, root, x, depth))
    && Distinct(ids)
    && ByDistance(adj, root, ids)
  }

  /** One level of the search: the unvisited neighbours of the frontier. */
  method ExpandLevel(g: Graph, frontier: seq<Id>, visited: set<Id>) returns (next: Option<seq<Id>>)
    ensures next == None <==> exists h | 0 <= h < |frontier| :: g.Fails(frontier[h])
    ensures next.Some? ==> Distinct(next.value)
    ensures next.Some? ==> forall x :: x in next.value <==> x !in visited && Adjacent(g.Adj, frontier, x)
  {
    var seen, found := visited, [];
    var i := 0;
    while i < |frontier|
      invariant 0 <= i <= |frontier|
      invariant forall h | 0 <= h < i :: !g.Fails(frontier[h])
      invariant Distinct(found) && seen == visited + set x | x in found
      invariant forall x :: x in found <==> x !in visited && Adjacent(g.Adj, frontier[..i], x)
    {
      var callers := g.GetCallers(frontier[i]);
      if callers == None {
        return None;
      }
      var callees := g.GetCallees(frontier[i]);
      if callees == None {
        return None;
      }
      var ns := callers.value + callees.value;
      assert ns == g.Adj(frontier[i]);
      ghost var before := found;
      var j := 0;
      while j < |ns|
        invariant 0 <= j <= |ns|
        invariant Distinct(found) && seen == visited + set x | x in found
        invariant forall x :: x in found <==> x in before || (x !in visited && x in ns[..j])
      {
        if ns[j] !in seen {
          seen := seen + {ns[j]};
          found := found + [ns[j]];
        }
        j := j + 1;
      }
      assert ns[..j] == ns;
      AdjacentSnoc(g.Adj, frontier, i);
      i := i + 1;
    }
    assert frontier[..i] == frontier;
    return Some(found);
  }

  /** A query fails for a node that the search has to expand. */
  ghost predicate SearchFails(g: Graph, root: Id, depth: nat) {
    depth > 0 && exists x :: Within(g.Adj, root, x, depth - 1) && g.Fails(x)
  }

  /** The search itself. It fails exactly when such a query fails, and otherwise returns the
      neighbourhood. */
  method Search(g: Graph, root: Id, depth: nat) returns (found: Option<seq<Id>>)
    ensures found == None <==> SearchFails(g, root, depth)
    ensures found.Some? ==> IsNeighbourhood(g.Adj, root, depth, found.value)
  {
    var visited, frontier, result := {root}, [root], [];
    var d := 0;
    StartLevel(g.Adj, root);
    while d < depth && frontier != []
      invariant 0 <= d <= depth && (d == 0 ==> frontier == [root])
      invariant AtLevel(g.Adj, root, d, visited, frontier)
      invariant IsNeighbourhood(g.Adj, root, d, result)
      invariant d > 0 ==> forall x | Within(g.Adj, root, x, d - 1) :: !g.Fails(x)
    {
      var next := ExpandLevel(g, frontier, visited);
      if next == None {
        var h :| 0 <= h < |frontier| && g.Fails(frontier[h]);
        assert frontier[h] in frontier;
        WithinIsMonotone(g.Adj, root, frontier[h], d, depth - 1);
        return None;
      }
      FrontierAnswered(g, root, d, frontier);
      NextLevel(g.Adj, root, d, visited, frontier, next.value);
      AppendLevel(g.Adj, root, d, visited, result, next.value);
      visited, frontier := visited + (set x | x in next.value), next.value;
      result := result + next.value;
      d := d + 1;
    }
    if d < depth {
      StoppedEarly(g, root, d, depth, visited, result);
    }
    return Some(result);
  }

  /** With an empty frontier the deeper levels are empty too. */
  lemma StoppedEarly(g: Graph, root: Id, d: nat, depth: nat, visited: set<Id>, result: seq<Id>)
    requires 0 < d < depth && AtLevel(g.Adj, root, d, visited, []) && IsNeighbourhood(g.Adj, root, d, result)
    requires forall x | Within(g.Adj, root, x, d - 1) :: !g.Fails(x)
    ensures IsNeighbourhood(g.Adj, root, depth, result)
    ensures forall x | Within(g.Adj, root, x, depth - 1) :: !g.Fails(x)
  {
    var none: seq<Id> := [];
    assert forall x :: x in none <==> Exactly(g.Adj, root, x, d);
    NothingBeyondAnEmptyLevel(g.Adj, root, d, depth);
    NothingBeyondAnEmptyLevel(g.Adj, root, d, depth - 1);
    forall x | Within(g.Adj, root, x, depth - 1) ensures !g.Fails(x) {
      assert Within(g.Adj, root, x, d) && !Exactly(g.Adj, root, x, d);
      assert Within(g.Adj, root, x, d - 1);
    }
  }

  lemma FrontierAnswered(g: Graph, root: Id, d: nat, frontier: seq<Id>)
    requires forall x :: x in frontier <==> Exactly(g.Adj, root, x, d)
    requires forall h | 0 <= h < |frontier| :: !g.Fails(frontier[h])
    requires d > 0 ==> forall x | Within(g.Adj, root, x, d - 1) :: !g.Fails(x)
    ensures forall x | Within(g.Adj, root, x, d) :: !g.Fails(x)
  {
    forall x | Within(g.Adj, root, x, d) ensures !g.Fails(x) {
      if Exactly(g.Adj, root, x, d) {
        assert x in frontier;
      }
    }
  }

  lemma AppendLevel(adj: Id -> seq<Id>, root: Id, d: nat, visited: set<Id>, result: seq<Id>, next: seq<Id>)
    requires forall x :: x in visited <==> Within(adj, root, x, d)
    requires IsNeighbourhood(adj, root, d, result)
    requires AtLevel(adj, root, d + 1, visited + (set x | x in next), next)
    ensures IsNeighbourhood(adj, root, d + 1, result + next)
  {
    var ids := result + next;
    forall x | x in next ensures x !in visited && x != root {
      if x == root {
        assert Walk(adj, root, x, 0);
        assert Within(adj, root, x, d);
      }
    }
    forall x ensures x in ids <==> x != root && Within(adj, root, x, d + 1) {
      assert x in ids <==> x in result || x in next;
    }
    forall i, j | 0 <= i < j < |ids| ensures ids[i] != ids[j] {
      assert i < |result| ==> ids[i] in result;
      assert j >= |result| ==> ids[j] in next;
    }
    forall x, n: nat | x in next && Within(adj, root, x, n) ensures n > d {
      if n <= d {
        WithinIsMonotone(adj, root, x, n, d);
      }
    }
    forall i, j, n: nat | 0 <= i <= j < |ids| && Within(adj, root, ids[j], n) ensures Within(adj, root, ids[i], n) {
      if j >= |result| {
        assert ids[j] in next;
        if i < |result| {
          assert ids[i] in result;
          WithinIsMonotone(adj, root, ids[i], d, n);
        } else {
          assert ids[i] in next;
          WithinIsMonotone(adj, root, ids[i], d + 1, n);
        }
      }
    }
  }

  // ---- The stored graph ------------------------------------------------------------------

  datatype Edge = Edge(project: string, version: string, from: Id, to: Id, kind: string)

  datatype NodeRow = NodeRow(project: string, version: string, id: Id)

  /** The two CPG tables and the build whose graph is being asked about. */
  datatype Store = Store(edges: set<Edge>, nodes: set<NodeRow>, project: string, version: string)
  {
    predicate IsNode(id: Id) {
      NodeRow(project, version, id) in nodes
    }

    predicate OwnCall(a: Id, b: Id) {
      Edge(project, version, a, b, "CALL") in edges
    }

    /** A call edge between a and b in either direction, of any project and version. */
    predicate AnyCall(a: Id, b: Id) {
      exists e | e in edges :: e.kind == "CALL" && ((e.from == a && e.to == b) || (e.from == b && e.to == a))
    }

    /** The caller and callee queries: edges of this build joined with its nodes, in the order
        the database returns them. */
    ghost predicate Answers(g: Graph) {
      forall id ::
        && g.callers(id).Some? && g.callees(id).Some?
        && (forall x :: x in g.callers(id).value <==> IsNode(x) && OwnCall(x, id))
        && (forall x :: x in g.callees(id).value <==> IsNode(x) && OwnCall(id, x))
    }

    /** The recursive query derives id with depth column d. Its edge table is not restricted to
        the build, and it steps through IDs that are no nodes. */
    ghost predicate Row(root: Id, id: Id, d: nat)
      decreases d
    {
      if d == 0 then id == root
      else
        || (exists e | e in edges :: e.kind == "CALL" && e.to == id && Row(root, e.from, d - 1))
        || (exists e | e in edges :: e.kind == "CALL" && e.from == id && Row(root, e.to, d - 1))
    }

    /** The recursive query's result: the build's nodes among the derived IDs, without the root. */
    ghost predicate InRecursiveQuery(root: Id, depth: nat, id: Id) {
      id != root && IsNode(id) && exists d: nat :: d <= depth && Row(root, id, d)
    }

    /** The edge table holds one build, every end of a call is a stored node, and no ID is empty
        or synthetic. */
    ghost predicate Tidy() {
      forall e | e in edges ::
        && e.project == project && e.version == version
        && IsNode(e.from) && IsNode(e.to)
        && Plain(e.from) && Plain(e.to)
    }
  }

  predicate Plain(id: Id) {
    id != "" && !Text.HasPrefix(id, "-")
  }

  /** What the stored recursive query gives: it is not there or rejected, it returns rows, or
      reading its rows fails. */
  datatype Stored = Unavailable | Rows(ids: seq<Id>) | BrokenOff

  /** The entry point: argument checks, then the stored recursive query if it can be started,
      otherwise the search. */
  method GetNeighboursAtDepth(g: Graph, stored: Stored, root: Id, depth: int) returns (r: Answer)
    ensures r == DepthExceeded <==> depth > 6
    ensures r == EmptyRoot <==> depth <= 6 && root == ""
    ensures depth <= MAX_DEPTH && root != "" && stored.Rows? ==> r == Nodes(stored.ids)
    ensures depth <= MAX_DEPTH && root != "" && stored.BrokenOff? ==> r == QueryFailed
    ensures depth <= MAX_DEPTH && root != "" && stored.Unavailable? ==>
      var d := if depth < 0 then 0 else depth;
      && (r == QueryFailed <==> SearchFails(g, root, d))
      && (r != QueryFailed ==> r.Nodes? && IsNeighbourhood(g.Adj, root, d, r.ids))
  {
    if depth > MAX_DEPTH {
      return DepthExceeded;
    }
    var d := if depth < 0 then 0 else depth;
    if root == "" {
      return EmptyRoot;
    }
    match stored {
      case Rows(ids) => return Nodes(ids);
      case BrokenOff => return QueryFailed;
      case Unavailable =>
    }
    var found := Search(g, root, d);
    return if found == None then QueryFailed else Nodes(found.value);
  }

  /** On a tidy store the search never fails from a plain root. */
  lemma SearchSucceeds(s: Store, g: Graph, root: Id, x: Id, n: nat)
    requires s.Tidy() && s.Answers(g) && Plain(root) && Within(g.Adj, root, x, n)
    ensures !g.Fails(x)
  {
    var k: nat :| k <= n && Walk(g.Adj, root, x, k);
    if k > 0 {
      var m :| Walk(g.Adj, root, m, k - 1) && x in g.Adj(m);
    }
  }

  /** A step of the search on a tidy store is a call in either direction. */
  lemma TidyStep(s: Store, g: Graph, a: Id, x: Id)
    requires s.Tidy() && s.Answers(g) && Plain(a)
    ensures x in g.Adj(a) <==> s.AnyCall(a, x)
  {
    if s.AnyCall(a, x) {
      var e :| e in s.edges && e.kind == "CALL" && ((e.from == a && e.to == x) || (e.from == x && e.to == a));
      assert e == Edge(s.project, s.version, e.from, e.to, "CALL");
    }
    if x in g.Adj(a) {
      assert s.OwnCall(a, x) || s.OwnCall(x, a);
    }
  }

  lemma RowStep(s: Store, root: Id, x: Id, d: nat)
    requires d > 0
    ensures s.Row(root, x, d) <==> exists m :: s.Row(root, m, d - 1) && s.AnyCall(m, x)
  {
    if m :| s.Row(root, m, d - 1) && s.AnyCall(m, x) {
      var e :| e in s.edges && e.kind == "CALL" && ((e.from == m && e.to == x) || (e.from == x && e.to == m));
    }
    if s.Row(root, x, d) {
      if e :| e in s.edges && e.kind == "CALL" && e.to == x && s.Row(root, e.from, d - 1) {
        assert s.AnyCall(e.from, x);
      } else {
        var e :| e in s.edges && e.kind == "CALL" && e.from == x && s.Row(root, e.to, d - 1);
        assert s.AnyCall(e.to, x);
      }
    }
  }

  lemma RowBefore(s: Store, root: Id, x: Id, d: nat) returns (m: Id)
    requires d > 0 && s.Row(root, x, d)
    ensures s.Row(root, m, d - 1) && s.AnyCall(m, x)
  {
    RowStep(s, root, x, d);
    m :| s.Row(root, m, d - 1) && s.AnyCall(m, x);
  }

  /** From plain IDs, the search and the query step alike and to plain IDs. */
  ghost predicate SameSteps(s: Store, adj: Id -> seq<Id>) {
    && (forall a, x | Plain(a) :: x in adj(a) <==> s.AnyCall(a, x))
    && (forall a, x | s.AnyCall(a, x) :: Plain(x))
  }

  lemma TidyStoresStepAlike(s: Store, g: Graph)
    requires s.Tidy() && s.Answers(g)
    ensures SameSteps(s, g.Adj)
  {
    forall a, x | Plain(a) ensures x in g.Adj(a) <==> s.AnyCall(a, x) {
      TidyStep(s, g, a, x);
    }
  }

  /** The depth column of the recursive query counts the steps of a walk. */
  lemma {:induction false} RowsAreWalks(s: Store, adj: Id -> seq<Id>, root: Id, x: Id, d: nat)
    requires SameSteps(s, adj) && Plain(root) && s.Row(root, x, d)
    ensures Walk(adj, root, x, d) && Plain(x)
    decreases d
  {
    if d > 0 {
      var m := RowBefore(s, root, x, d);
      RowsAreWalks(s, adj, root, m, d - 1);
      WalkStep(adj, root, m, x, d);
    }
  }

  lemma WalkStep(adj: Id -> seq<Id>, a: Id, m: Id, b: Id, n: nat)
    requires n > 0
    ensures Walk(adj, a, m, n - 1) && b in adj(m) ==> Walk(adj, a, b, n)
  {
  }

  lemma {:induction false} WalksAreRows(s: Store, adj: Id -> seq<Id>, root: Id, x: Id, d: nat)
    requires SameSteps(s, adj) && Plain(root) && Walk(adj, root, x, d)
    ensures s.Row(root, x, d)
    decreases d
  {
    if d > 0 {
      var m :| Walk(adj, root, m, d - 1) && x in adj(m);
      WalksAreRows(s, adj, root, m, d - 1);
      RowsAreWalks(s, adj, root, m, d - 1);
      RowStep(s, root, x, d);
    }
  }

  /** On a tidy store the recursive query and the search name the same nodes. */
  lemma QueryAgreesWithSearch(s: Store, g: Graph, root: Id, depth: nat, ids: seq<Id>)
    requires s.Tidy() && s.Answers(g) && Plain(root)
    requires IsNeighbourhood(g.Adj, root, depth, ids)
    ensures forall id :: s.InRecursiveQuery(root, depth, id) <==> id in ids
  {
    TidyStoresStepAlike(s, g);
    forall id ensures s.InRecursiveQuery(root, depth, id) <==> id in ids {
      if s.InRecursiveQuery(root, depth, id) {
        var d: nat :| d <= depth && s.Row(root, id, d);
        RowsAreWalks(s, g.Adj, root, id, d);
      }
      if id in ids {
        var d: nat :| d <= depth && Walk(g.Adj, root, id, d);
        WalksAreRows(s, g.Adj, root, id, d);
        StepsEndInNodes(s, g, root, id, d);
      }
    }
  }

  lemma StepsEndInNodes(s: Store, g: Graph, root: Id, id: Id, d: nat)
    requires s.Answers(g) && Walk(g.Adj, root, id, d) && d > 0
    ensures s.IsNode(id)
  {
    var m :| Walk(g.Adj, root, m, d - 1) && id in g.Adj(m);
  }

  // ---- On any store ------------------------------------------------------------------------

  /** A node that the search can step on from. */
  predicate Waypoint(s: Store, id: Id) {
    Plain(id) && s.IsNode(id)
  }

  /** From every plain stored root at every allowed depth, the search succeeds and the query names
      the same nodes. */
  ghost predicate Agrees(s: Store, g: Graph) {
    forall root, depth: nat | Waypoint(s, root) && depth <= MAX_DEPTH ::
      !SearchFails(g, root, depth) && SameNodes(s, g, root, depth)
  }

  ghost predicate SameNodes(s: Store, g: Graph, root: Id, depth: nat) {
    forall id :: s.InRecursiveQuery(root, depth, id) <==> id != root && Within(g.Adj, root, id, depth)
  }

  /** No waypoint is joined by a call to a stored node with an empty ID. */
  ghost predicate NoEmptyNeighbour(s: Store) {
    forall m | Waypoint(s, m) :: !JoinedToEmpty(s, m)
  }

  predicate JoinedToEmpty(s: Store, m: Id) {
    s.IsNode("") && (s.OwnCall(m, "") || s.OwnCall("", m))
  }

  /** Wherever a path of at most MAX_DEPTH calls, of any build and direction, joins two stored
      nodes with no waypoint in between, the search has as short a walk. */
  ghost predicate DetoursAreMatched(s: Store, g: Graph) {
    forall a, b, k: nat | Waypoint(s, a) && s.IsNode(b) && k <= MAX_DEPTH && Detour(s.AnyCall, id => Waypoint(s, id), a, b, k) ::
      Within(g.Adj, a, b, k)
  }

  /** The two agree exactly if every such detour is matched and no waypoint calls, or is called
      by, a node with an empty ID. */
  lemma AgreesExactlyWhen(s: Store, g: Graph)
    requires s.Answers(g)
    ensures Agrees(s, g) <==> DetoursAreMatched(s, g) && NoEmptyNeighbour(s)
  {
    if Agrees(s, g) {
      AgreementMatchesDetours(s, g);
      forall m | Waypoint(s, m) ensures !JoinedToEmpty(s, m) {
        assert !SearchFails(g, m, 2);
        if JoinedToEmpty(s, m) {
          EmptyNeighbourFails(s, g, m);
        }
      }
    }
    if DetoursAreMatched(s, g) && NoEmptyNeighbour(s) {
      forall root, depth: nat | Waypoint(s, root) && depth <= MAX_DEPTH
        ensures !SearchFails(g, root, depth) && SameNodes(s, g, root, depth)
      {
        SearchFailsOnlyAtEmpty(s, g, root, depth);
        MatchedDetoursAgree(s, g, root, depth);
      }
    }
  }

  lemma AgreementMatchesDetours(s: Store, g: Graph)
    requires s.Answers(g) && Agrees(s, g)
    ensures DetoursAreMatched(s, g)
  {
    var stop := id => Waypoint(s, id);
    forall a, b, k: nat | Waypoint(s, a) && s.IsNode(b) && k <= MAX_DEPTH && Detour(s.AnyCall, stop, a, b, k)
      ensures Within(g.Adj, a, b, k)
    {
      DetourIsAPath(s.AnyCall, stop, a, b, k);
      RowsArePaths(s, a, b, k);
      if a == b {
        WithinZero(g.Adj, a);
        WithinIsMonotone(g.Adj, a, a, 0, k);
      } else {
        assert s.InRecursiveQuery(a, k, b);
        assert SameNodes(s, g, a, k);
      }
    }
  }

  lemma MatchedDetoursAgree(s: Store, g: Graph, root: Id, depth: nat)
    requires s.Answers(g) && DetoursAreMatched(s, g) && Waypoint(s, root) && depth <= MAX_DEPTH
    ensures SameNodes(s, g, root, depth)
  {
    forall id ensures s.InRecursiveQuery(root, depth, id) <==> id != root && Within(g.Adj, root, id, depth) {
      if id != root && Within(g.Adj, root, id, depth) {
        QueryIncludesSearch(s, g, root, depth, id);
      } else if s.InRecursiveQuery(root, depth, id) {
        var d: nat :| d <= depth && s.Row(root, id, d);
        RowsArePaths(s, root, id, d);
        MatchedRow(s, g, root, id, d, depth);
      }
    }
  }

  lemma EmptyNeighbourFails(s: Store, g: Graph, m: Id)
    requires s.Answers(g) && Waypoint(s, m) && JoinedToEmpty(s, m)
    ensures SearchFails(g, m, 2)
  {
    assert Walk(g.Adj, m, m, 0);
    assert "" in g.Adj(m);
    WalkStep(g.Adj, m, m, "", 1);
    assert Within(g.Adj, m, "", 1) && g.Fails("");
  }

  /** Without such a call no search from a waypoint fails: a query fails only for an empty ID. */
  lemma SearchFailsOnlyAtEmpty(s: Store, g: Graph, root: Id, depth: nat)
    requires s.Answers(g) && Waypoint(s, root) && NoEmptyNeighbour(s)
    ensures !SearchFails(g, root, depth)
  {
    forall x | depth > 0 && Within(g.Adj, root, x, depth - 1) ensures !g.Fails(x) {
      var d: nat :| d <= depth - 1 && Walk(g.Adj, root, x, d);
      if x == "" {
        var m :| Walk(g.Adj, root, m, d - 1) && x in g.Adj(m);
        if m != root {
          StepsEndInNodes(s, g, root, m, d - 1);
        }
        assert Waypoint(s, m);
      }
    }
  }

  /** On any store, the query returns all that the search finds. */
  lemma QueryIncludesSearch(s: Store, g: Graph, root: Id, depth: nat, id: Id)
    requires s.Answers(g) && id != root && Within(g.Adj, root, id, depth)
    ensures s.InRecursiveQuery(root, depth, id)
  {
    var d: nat :| d <= depth && Walk(g.Adj, root, id, d);
    forall m, x | x in g.Adj(m) ensures s.AnyCall(m, x) {
      SearchStepIsACall(s, g, m, x);
    }
    WalkIsAPath(g.Adj, s.AnyCall, root, id, d);
    RowsArePaths(s, root, id, d);
    StepsEndInNodes(s, g, root, id, d);
  }

  lemma SearchStepIsACall(s: Store, g: Graph, m: Id, x: Id)
    requires s.Answers(g) && x in g.Adj(m)
    ensures s.AnyCall(m, x)
  {
    assert s.OwnCall(x, m) || s.OwnCall(m, x);
  }

  /** The query derives what paths of calls reach. */
  lemma RowsArePaths(s: Store, root: Id, x: Id, d: nat)
    ensures s.Row(root, x, d) <==> Path(s.AnyCall, root, x, d)
  {
    if s.Row(root, x, d) {
      RowIsAPath(s, root, x, d);
    }
    if Path(s.AnyCall, root, x, d) {
      PathIsARow(s, root, x, d);
    }
  }

  lemma {:induction false} RowIsAPath(s: Store, root: Id, x: Id, d: nat)
    requires s.Row(root, x, d)
    ensures Path(s.AnyCall, root, x, d)
    decreases d
  {
    if d > 0 {
      var m := RowBefore(s, root, x, d);
      RowIsAPath(s, root, m, d - 1);
      PathStep(s.AnyCall, root, m, x, d - 1);
    }
  }

  lemma {:induction false} PathIsARow(s: Store, root: Id, x: Id, d: nat)
    requires Path(s.AnyCall, root, x, d)
    ensures s.Row(root, x, d)
    decreases d
  {
    if d > 0 {
      var m := LastCall(s.AnyCall, root, x, d);
      PathIsARow(s, root, m, d - 1);
      QueryStep(s, root, m, x, d - 1);
    }
  }

  lemma MatchedRow(s: Store, g: Graph, root: Id, x: Id, d: nat, depth: nat)
    requires DetoursAreMatched(s, g) && Waypoint(s, root) && s.IsNode(x) && d <= depth <= MAX_DEPTH
    requires Path(s.AnyCall, root, x, d)
    ensures Within(g.Adj, root, x, depth)
  {
    DetoursMakeAWalk(g.Adj, s.AnyCall, id => Waypoint(s, id), id => s.IsNode(id), MAX_DEPTH, root, x, d);
    WithinIsMonotone(g.Adj, root, x, d, depth);
  }

  // ---- What each part of tidiness is for ---------------------------------------------------

  /** A call recorded for another project leads the recursive query to b, and the search not. */
  lemma ForeignCallsLeak(s: Store, g: Graph, other: string, n: nat)
    requires s.Answers(g) && s.IsNode("a") && s.IsNode("b") && other != s.project
    requires s.edges == {Edge(other, s.version, "a", "b", "CALL")}
    ensures s.InRecursiveQuery("a", 1, "b") && !Within(g.Adj, "a", "b", n)
  {
    QueryStep(s, "a", "a", "b", 0);
    NotReached(g.Adj, "a", "b", n, {"a"});
  }

  /** The recursive query walks on through an ID that is no node of the build. */
  lemma DanglingEndsLeak(s: Store, g: Graph, n: nat)
    requires s.Answers(g) && s.IsNode("a") && s.IsNode("b") && !s.IsNode("x")
    requires s.edges == {Edge(s.project, s.version, "a", "x", "CALL"), Edge(s.project, s.version, "x", "b", "CALL")}
    ensures s.InRecursiveQuery("a", 2, "b") && !Within(g.Adj, "a", "b", n)
  {
    QueryStep(s, "a", "a", "x", 0);
    QueryStep(s, "a", "x", "b", 1);
    NotReached(g.Adj, "a", "b", n, {"a"});
  }

  /** The recursive query walks on through a synthetic node, where the search stops. */
  lemma SyntheticNodesLeak(s: Store, g: Graph, n: nat)
    requires s.Answers(g) && s.IsNode("a") && s.IsNode("b")
    requires s.edges == {Edge(s.project, s.version, "a", "-1", "CALL"), Edge(s.project, s.version, "-1", "b", "CALL")}
    ensures s.InRecursiveQuery("a", 2, "b") && !Within(g.Adj, "a", "b", n)
  {
    QueryStep(s, "a", "a", "-1", 0);
    QueryStep(s, "a", "-1", "b", 1);
    assert Text.HasPrefix("-1", "-");
    NotReached(g.Adj, "a", "b", n, {"a", "-1"});
  }

  /** A call to a node with an empty ID fails the search, where the query names the node. */
  lemma EmptyIdsFail(s: Store, g: Graph)
    requires s.Answers(g) && s.IsNode("a") && s.IsNode("")
    requires s.edges == {Edge(s.project, s.version, "a", "", "CALL")}
    ensures SearchFails(g, "a", 2) && s.InRecursiveQuery("a", 2, "")
  {
    assert "a"[..1] == "a" && Waypoint(s, "a");
    EmptyNeighbourFails(s, g, "a");
    QueryStep(s, "a", "a", "", 0);
  }

  lemma QueryStep(s: Store, root: Id, m: Id, x: Id, d: nat)
    requires s.Row(root, m, d) && s.AnyCall(m, x)
    ensures s.Row(root, x, d + 1)
  {
    RowStep(s, root, x, d + 1);
  }

  lemma NotReached(adj: Id -> seq<Id>, a: Id, b: Id, n: nat, closed: set<Id>)
    requires a in closed && b !in closed && forall m, x | m in closed && x in adj(m) :: x in closed
    ensures !Within(adj, a, b, n)
  {
    if Within(adj, a, b, n) {
      var k: nat :| k <= n && Walk(adj, a, b, k);
      ClosedSetsContainWalks(adj, a, b, k, closed);
    }
  }
}
