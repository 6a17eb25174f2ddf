/** Finding the HTTP route that reaches a finding: the enclosing method, then its callers level
    by level (internal/poe/route.go). */
module Route {
  import opened Findings
  import opened Walks

  const MAX_ROUTE_WALK_DEPTH := 5

  datatype HttpRoute = HttpRoute(verb: string, path: string)

  datatype MethodNode = MethodNode(id: Id, line: int)

  predicate SortedByLine(ms: seq<MethodNode>) {
    forall i, j | 0 <= i < j < |ms| :: ms[i].line <= ms[j].line
  }

  function Insert(m: MethodNode, sorted: seq<MethodNode>): seq<MethodNode> {
    if sorted == [] || m.line < sorted[0].line then [m] + sorted else [sorted[0]] + Insert(m, sorted[1..])
  }

  lemma {:induction false} InsertKeeps(m: MethodNode, sorted: seq<MethodNode>)
    ensures multiset(Insert(m, sorted)) == multiset(sorted) + multiset{m}
  {
    if sorted != [] && m.line >= sorted[0].line {
      InsertKeeps(m, sorted[1..]);
      assert sorted == [sorted[0]] + sorted[1..];
    }
  }

  lemma {:induction false} InsertSorts(m: MethodNode, sorted: seq<MethodNode>)
    requires SortedByLine(sorted)
    ensures SortedByLine(Insert(m, sorted))
    ensures forall x | x in Insert(m, sorted) :: x == m || x in sorted
  {
    if sorted != [] && m.line >= sorted[0].line {
      InsertSorts(m, sorted[1..]);
      var rest := Insert(m, sorted[1..]);
      forall j | 0 <= j < |rest| ensures sorted[0].line <= rest[j].line {
        assert rest[j] in rest;
      }
    }
  }

  /** sort.Slice by declaration line; methods on one line may end up in any order. */
  method SortByLine(ms: seq<MethodNode>) returns (sorted: seq<MethodNode>)
    ensures multiset(sorted) == multiset(ms) && SortedByLine(sorted)
  {
    sorted := [];
    var i := 0;
    while i < |ms|
      invariant 0 <= i <= |ms|
      invariant multiset(sorted) == multiset(ms[..i]) && SortedByLine(sorted)
    {
      assert ms[..i + 1] == ms[..i] + [ms[i]];
      InsertKeeps(ms[i], sorted);
      InsertSorts(ms[i], sorted);
      sorted := Insert(ms[i], sorted);
      i := i + 1;
    }
    assert ms[..i] == ms;
  }

  /** The method of the file whose declaration line is the largest one not after the finding. */
  ghost predicate Encloses(ms: seq<MethodNode>, line: int, m: MethodNode) {
    m in ms && m.line <= line && forall other | other in ms && other.line <= line :: other.line <= m.line
  }

  method EnclosingMethod(methods: Option<seq<MethodNode>>, line: int) returns (m: Option<MethodNode>)
    ensures m == None <==> methods == None || forall other | other in methods.value :: other.line > line
    ensures m.Some? ==> methods.Some? && Encloses(methods.value, line, m.value)
  {
    if methods == None || |methods.value| == 0 {
      return None;
    }
    var ms := SortByLine(methods.value);
    SameElements(ms, methods.value);
    var best := -1;
    var i := 0;
    while i < |ms|
      invariant 0 <= i <= |ms| && -1 <= best < i
      invariant best == -1 ==> forall h | 0 <= h < i :: ms[h].line > line
      invariant best >= 0 ==> ms[best].line <= line && forall h | 0 <= h < i && ms[h].line <= line :: h <= best
    {
      if ms[i].line <= line {
        best := i;
      }
      i := i + 1;
    }
    if best == -1 {
      forall other | other in methods.value ensures other.line > line {
        assert other in ms;
      }
      return None;
    }
    assert ms[best] in ms;
    forall other | other in methods.value && other.line <= line ensures other.line <= ms[best].line {
      var h :| 0 <= h < |ms| && ms[h] == other;
    }
    return Some(ms[best]);
  }

  lemma SameElements(a: seq<MethodNode>, b: seq<MethodNode>)
    requires multiset(a) == multiset(b)
    ensures forall m :: m in a <==> m in b
  {
    forall m ensures m in a <==> m in b {
      assert m in multiset(a) <==> m in multiset(b);
    }
  }

  /** route is declared by a caller exactly n steps up, and by none nearer. */
  ghost predicate NearestRoute(adj: Id -> seq<Id>, declares: Id -> Option<HttpRoute>, start: Id, n: nat, route: HttpRoute) {
    && (exists x :: Exactly(adj, start, x, n) && declares(x) == Some(route))
    && forall x | n > 0 && Within(adj, start, x, n - 1) :: declares(x) == None
  }

  /** The callers of one level: either one of them declares a route, or they form the next
      frontier. */
  method TryLevel(g: Callers, declares: Id -> Option<HttpRoute>, frontier: seq<Id>, visited: set<Id>)
    returns (route: Option<HttpRoute>, next: seq<Id>)
    ensures route.Some? ==> exists x :: x !in visited && Adjacent(g.Of, frontier, x) && declares(x) == route
    ensures route == None ==> Distinct(next) && forall x | x in next :: declares(x) == None
    ensures route == None ==> forall x :: x in next <==> x !in visited && Adjacent(g.Of, frontier, x)
  {
    var seen := visited;
    next := [];
    var i := 0;
    while i < |frontier|
      invariant 0 <= i <= |frontier|
      invariant Distinct(next) && seen == visited + set x | x in next
      invariant forall x | x in next :: declares(x) == None
      invariant forall x :: x in next <==> x !in visited && Adjacent(g.Of, frontier[..i], x)
    {
      var callers := g.Of(frontier[i]);
      ghost var before := next;
      var j := 0;
      while j < |callers|
        invariant 0 <= j <= |callers|
        invariant Distinct(next) && seen == visited + set x | x in next
        invariant forall x | x in next :: declares(x) == None
        invariant forall x :: x in next <==> x in before || (x !in visited && x in callers[..j])
      {
        var c := callers[j];
        if c !in seen {
          seen := seen + {c};
          if declares(c).Some? {
            assert c in g.Of(frontier[i]);
            return declares(c), next;
          }
          next := next + [c];
        }
        j := j + 1;
      }
      assert callers[..j] == callers;
      AdjacentSnoc(g.Of, frontier, i);
      i := i + 1;
    }
    assert frontier[..i] == frontier;
    return None, next;
  }

  /** The walk from the enclosing method. It succeeds exactly if the method itself or a caller
      at most five steps up declares a route, and the route is one declared nearest. */
  method WalkToRoute(g: Callers, declares: Id -> Option<HttpRoute>, start: Id) returns (route: Option<HttpRoute>)
    ensures route == None <==> forall x | Within(g.Of, start, x, 5) :: declares(x) == None
    ensures route.Some? ==> exists n: nat :: n <= 5 && NearestRoute(g.Of, declares, start, n, route.value)
  {
    StartLevel(g.Of, start);
    if declares(start).Some? {
      assert start in [start];
      WithinIsMonotone(g.Of, start, start, 0, MAX_ROUTE_WALK_DEPTH);
      assert NearestRoute(g.Of, declares, start, 0, declares(start).value);
      return declares(start);
    }
    var visited, frontier := {start}, [start];
    var depth := 0;
    while depth < MAX_ROUTE_WALK_DEPTH && frontier != []
      invariant 0 <= depth <= MAX_ROUTE_WALK_DEPTH
      invariant AtLevel(g.Of, start, depth, visited, frontier)
      invariant forall x | x in visited :: declares(x) == None
    {
      var found, next := TryLevel(g, declares, frontier, visited);
      if found.Some? {
        RouteAtNextLevel(g.Of, declares, start, depth, visited, frontier, found.value);
        return found;
      }
      NextLevel(g.Of, start, depth, visited, frontier, next);
      visited, frontier := visited + (set x | x in next), next;
      depth := depth + 1;
    }
    if frontier == [] {
      assert forall x :: x in frontier <==> Exactly(g.Of, start, x, depth);
      NothingBeyondAnEmptyLevel(g.Of, start, depth, MAX_ROUTE_WALK_DEPTH);
    }
    return None;
  }

  lemma RouteAtNextLevel(adj: Id -> seq<Id>, declares: Id -> Option<HttpRoute>, start: Id, depth: nat,
                         visited: set<Id>, frontier: seq<Id>, route: HttpRoute)
    requires AtLevel(adj, start, depth, visited, frontier)
    requires depth < MAX_ROUTE_WALK_DEPTH && forall x | x in visited :: declares(x) == None
    requires exists x :: x !in visited && Adjacent(adj, frontier, x) && declares(x) == Some(route)
    ensures NearestRoute(adj, declares, start, depth + 1, route)
    ensures exists x :: Within(adj, start, x, MAX_ROUTE_WALK_DEPTH) && declares(x) != None
  {
    var x :| x !in visited && Adjacent(adj, frontier, x) && declares(x) == Some(route);
    var h :| 0 <= h < |frontier| && x in adj(frontier[h]);
    assert frontier[h] in frontier;
    OneMoreStep(adj, start, frontier[h], x, depth);
    WithinIsMonotone(adj, start, x, depth + 1, MAX_ROUTE_WALK_DEPTH);
    assert Exactly(adj, start, x, depth + 1);
  }

  /** Route resolution for a finding at a line; declares == None means the file's language has
      no route convention. */
  method ResolveRoute(g: Callers, declares: Option<Id -> Option<HttpRoute>>, methods: Option<seq<MethodNode>>, line: int)
    returns (route: Option<HttpRoute>)
    ensures route.Some? ==> declares.Some? && methods.Some?
    ensures route.Some? ==> exists m, n: nat ::
      n <= MAX_ROUTE_WALK_DEPTH && Encloses(methods.value, line, m) && NearestRoute(g.Of, declares.value, m.id, n, route.value)
    ensures route == None && declares.Some? && methods.Some? && (exists m | m in methods.value :: m.line <= line) ==>
      exists m :: Encloses(methods.value, line, m)
             && forall x | Within(g.Of, m.id, x, MAX_ROUTE_WALK_DEPTH) :: declares.value(x) == None
  {
    if declares == None {
      return None;
    }
    var start := EnclosingMethod(methods, line);
    if start == None {
      return None;
    }
    route := WalkToRoute(g, declares.value, start.value.id);
  }
}
