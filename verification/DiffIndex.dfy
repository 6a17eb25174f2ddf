/** The differential index: which files changed since the last scan, and the table of file hashes
    that answers it (internal/ingestion/diffindex/diffindex.go, pkg/postgres/state.go).

    A file's content stands for its SHA-256 digest: digests are never empty and differ for
    different contents. A file that cannot be hashed has none. */
module DiffIndex {
  import opened Findings
  import Text

  /** A path relative to the project root, as its list of names. */
  type Path = seq<string>

  type Digest = d: string | d != "" witness "0"

  datatype Entry =
    | File(name: string, digest: Option<Digest>)
    | Dir(name: string, entries: seq<Entry>)

  const SKIP_DIRS := {".git", "vendor", "node_modules", ".cache", "__pycache__", ".pytest_cache", ".venv", "venv"}

  const BINARY_EXTS := {
    ".exe", ".bin", ".so", ".dylib", ".dll", ".o", ".a", ".lib",
    ".png", ".jpg", ".jpeg", ".gif", ".webp", ".ico",
    ".pdf", ".zip", ".tar", ".gz", ".bz2", ".xz", ".wasm", ".db", ".sqlite", ".db-shm", ".db-wal"}

  /** filepath.Ext of a name: from its last dot on, or "". */
  function Ext(name: string): string {
    if name == "" then ""
    else
      var last, before := name[|name| - 1], Ext(name[..|name| - 1]);
      if last == '.' then "." else if before == "" then "" else before + [last]
  }

  /** That is the last dot and what follows it. */
  lemma {:induction false} ExtIsBehindTheLastDot(stem: string, tail: string)
    requires '.' !in tail
    ensures Ext(tail) == "" && Ext(stem + "." + tail) == "." + tail
    decreases |tail|
  {
    var name := stem + "." + tail;
    if tail == "" {
      assert name[|name| - 1] == '.';
    } else {
      var init, last := tail[..|tail| - 1], tail[|tail| - 1];
      ExtIsBehindTheLastDot(stem, init);
      assert name[..|name| - 1] == stem + "." + init && name[|name| - 1] == last;
      assert "." + tail == ("." + init) + [last];
      assert last in tail;
    }
  }

  predicate BinaryName(name: string) {
    Text.Lower(Ext(name)) in BINARY_EXTS
  }

  method ShouldSkip(path: Path) returns (skip: bool)
    requires path != []
    ensures skip <==> Skipped(path)
  {
    for i := 0 to |path|
      invariant forall j | 0 <= j < i :: path[j] !in SKIP_DIRS
    {
      if path[i] in SKIP_DIRS {
        return true;
      }
    }
    return BinaryName(path[|path| - 1]);
  }

  predicate Skipped(path: Path)
    requires path != []
  {
    (exists name | name in path :: name in SKIP_DIRS) || BinaryName(path[|path| - 1])
  }

  // ---- The walk ---------------------------------------------------------------------------------

  /** A file that the walk reaches, does not skip and can hash. */
  datatype Visit = Visit(path: Path, digest: Digest)

  function VisitsIn(dir: Path, entries: seq<Entry>): seq<Visit>
    decreases entries
  {
    if entries == [] then [] else VisitsOf(dir, entries[0]) + VisitsIn(dir, entries[1..])
  }

  /** A skipped directory is left out with everything below it. */
  function VisitsOf(dir: Path, e: Entry): seq<Visit>
    decreases e
  {
    var path := dir + [e.name];
    if Skipped(path) then []
    else match e
      case File(_, None) => []
      case File(_, Some(digest)) => [Visit(path, digest)]
      case Dir(_, entries) => VisitsIn(path, entries)
  }

  /** The tree has a readable file with this digest at this path. */
  ghost predicate FileAt(entries: seq<Entry>, path: Path, digest: Digest) {
    path != [] && exists e :: e in entries && e.name == path[0] && Leads(e, path, digest)
  }

  ghost predicate Leads(e: Entry, path: Path, digest: Digest)
    requires path != []
  {
    match e
    case File(_, d) => |path| == 1 && d == Some(digest)
    case Dir(_, entries) => FileAt(entries, path[1..], digest)
  }

  predicate Excluded(name: string) {
    name in SKIP_DIRS || BinaryName(name)
  }

  predicate Included(path: Path) {
    forall name | name in path :: !Excluded(name)
  }

  /** Exactly the readable files are visited none of whose path's names is excluded: a directory
      named like a binary file hides all it holds, although shouldSkip of those files says no. */
  lemma {:induction false} VisitedExactly(dir: Path, entries: seq<Entry>, path: Path, digest: Digest)
    requires Included(dir)
    ensures Visit(dir + path, digest) in VisitsIn(dir, entries) <==> Included(path) && FileAt(entries, path, digest)
    decreases entries, 1
  {
    if entries != [] {
      VisitedExactly(dir, entries[1..], path, digest);
      VisitedOfExactly(dir, entries[0], path, digest);
      if path != [] {
        assert FileAt(entries, path, digest)
          <==> (entries[0].name == path[0] && Leads(entries[0], path, digest)) || FileAt(entries[1..], path, digest)
        by {
          assert forall e :: e in entries <==> e == entries[0] || e in entries[1..];
        }
      }
    }
  }

  lemma {:induction false} VisitedOfExactly(dir: Path, e: Entry, path: Path, digest: Digest)
    requires Included(dir)
    ensures Visit(dir + path, digest) in VisitsOf(dir, e)
        <==> path != [] && Included(path) && e.name == path[0] && Leads(e, path, digest)
    decreases e, 0
  {
    var here := dir + [e.name];
    assert Skipped(here) <==> Excluded(e.name) by {
      assert e.name in here && here[|here| - 1] == e.name;
    }
    if path == [] || path[0] != e.name {
      NotBelow(dir, e, path, digest);
    } else {
      assert path == [e.name] + path[1..];
      assert dir + path == here + path[1..];
      if Excluded(e.name) {
        assert !Included(path);
      } else {
        assert Included(here) && (Included(path) <==> Included(path[1..]));
        match e
        case File(_, _) => assert |path| == 1 <==> dir + path == here;
        case Dir(_, entries) => VisitedExactly(here, entries, path[1..], digest);
      }
    }
  }

  lemma NotBelow(dir: Path, e: Entry, path: Path, digest: Digest)
    requires path == [] || path[0] != e.name
    ensures Visit(dir + path, digest) !in VisitsOf(dir, e)
  {
    BelowOf(dir, e);
    assert !Below(dir + [e.name], dir + path) by {
      assert path != [] ==> (dir + path)[..|dir| + 1][|dir|] != (dir + [e.name])[|dir|];
    }
  }

  predicate Below(dir: Path, path: Path) {
    |dir| <= |path| && path[..|dir|] == dir
  }

  lemma {:induction false} BelowOf(dir: Path, e: Entry)
    ensures forall v | v in VisitsOf(dir, e) :: Below(dir + [e.name], v.path)
    decreases e, 0
  {
    if e.Dir? && !Skipped(dir + [e.name]) {
      BelowIn(dir + [e.name], e.entries);
    }
  }

  lemma {:induction false} BelowIn(dir: Path, entries: seq<Entry>)
    ensures forall v | v in VisitsIn(dir, entries) :: Below(dir, v.path)
    decreases entries, 1
  {
    if entries != [] {
      BelowOf(dir, entries[0]);
      BelowIn(dir, entries[1..]);
      forall v | v in VisitsOf(dir, entries[0]) ensures Below(dir, v.path) {
        assert v.path[..|dir|] == v.path[..|dir| + 1][..|dir|] == dir;
      }
    }
  }

  /** No two entries of a directory have the same name. */
  ghost predicate ProperNames(entries: seq<Entry>) {
    && (forall i, j | 0 <= i < j < |entries| :: entries[i].name != entries[j].name)
    && (forall e | e in entries && e.Dir? :: ProperNames(e.entries))
  }

  ghost predicate DistinctPaths(visits: seq<Visit>) {
    forall i, j | 0 <= i < j < |visits| :: visits[i].path != visits[j].path
  }

  lemma {:induction false} WalkVisitsOnce(dir: Path, entries: seq<Entry>)
    requires ProperNames(entries)
    ensures DistinctPaths(VisitsIn(dir, entries))
    decreases entries
  {
    if entries != [] {
      var first, others := VisitsOf(dir, entries[0]), VisitsIn(dir, entries[1..]);
      WalkVisitsOnce(dir, entries[1..]);
      if entries[0].Dir? {
        WalkVisitsOnce(dir + [entries[0].name], entries[0].entries);
      }
      forall v, w | v in first && w in others ensures v.path != w.path {
        OthersLieElsewhere(dir, entries, w);
        BelowOf(dir, entries[0]);
      }
      assert forall i | 0 <= i < |first| :: first[i] in first;
      assert forall i | 0 <= i < |others| :: others[i] in others;
    }
  }

  lemma {:induction false} OthersLieElsewhere(dir: Path, entries: seq<Entry>, w: Visit)
    requires ProperNames(entries) && entries != [] && w in VisitsIn(dir, entries[1..])
    ensures !Below(dir + [entries[0].name], w.path)
    decreases |entries|
  {
    var rest := entries[1..];
    if w in VisitsOf(dir, rest[0]) {
      BelowOf(dir, rest[0]);
      assert w.path[|dir|] == (dir + [rest[0].name])[|dir|];
      assert (dir + [entries[0].name])[|dir|] == entries[0].name;
    } else {
      var shorter := [entries[0]] + rest[1..];
      assert forall e | e in shorter :: e in entries;
      assert shorter[1..] == rest[1..];
      OthersLieElsewhere(dir, shorter, w);
    }
  }

  // ---- What a diff is ---------------------------------------------------------------------------

  type Rows = map<Path, Digest>

  /** A row's digest; "" if there is no row. */
  function DigestIn(rows: Rows, path: Path): string {
    if path in rows then rows[path] else ""
  }

  /** The rows that recording these visits one after the other leaves. */
  function Recorded(visits: seq<Visit>): Rows {
    if visits == [] then map[]
    else Recorded(visits[..|visits| - 1])[visits[|visits| - 1].path := visits[|visits| - 1].digest]
  }

  function ChangedBy(prior: Rows, visits: seq<Visit>): seq<Path> {
    if visits == [] then []
    else
      var last, before := visits[|visits| - 1], ChangedBy(prior, visits[..|visits| - 1]);
      if DigestIn(prior, last.path) != last.digest then before + [last.path] else before
  }

  function RemovedBy(prior: Rows, visits: seq<Visit>): set<Path> {
    prior.Keys - Recorded(visits).Keys
  }

  lemma {:induction false} RecordedKeys(visits: seq<Visit>)
    ensures forall path :: path in Recorded(visits) <==> exists v :: v in visits && v.path == path
    ensures forall path | path in Recorded(visits) :: Visit(path, Recorded(visits)[path]) in visits
  {
    if visits != [] {
      var before, last := visits[..|visits| - 1], visits[|visits| - 1];
      RecordedKeys(before);
      assert visits == before + [last];
    }
  }

  lemma {:induction false} RecordedOfDistinct(visits: seq<Visit>)
    requires DistinctPaths(visits)
    ensures forall v | v in visits :: v.path in Recorded(visits) && Recorded(visits)[v.path] == v.digest
  {
    if visits != [] {
      var before, last := visits[..|visits| - 1], visits[|visits| - 1];
      RecordedOfDistinct(before);
      forall v | v in visits ensures v.path in Recorded(visits) && Recorded(visits)[v.path] == v.digest {
        assert v == last || v in before;
      }
    }
  }

  lemma {:induction false} ChangedExactly(prior: Rows, visits: seq<Visit>)
    ensures forall path :: path in ChangedBy(prior, visits)
                      <==> exists v :: v in visits && v.path == path && DigestIn(prior, path) != v.digest
    ensures ChangedBy(prior, visits) == [] <==> forall v | v in visits :: DigestIn(prior, v.path) == v.digest
  {
    if visits != [] {
      var before, last := visits[..|visits| - 1], visits[|visits| - 1];
      ChangedExactly(prior, before);
      assert visits == before + [last];
    }
  }

  /** One more visit. */
  lemma Snoc(prior: Rows, visits: seq<Visit>, i: nat)
    requires i < |visits|
    ensures prior + Recorded(visits[..i + 1]) == (prior + Recorded(visits[..i]))[visits[i].path := visits[i].digest]
    ensures Recorded(visits[..i + 1]).Keys == Recorded(visits[..i]).Keys + {visits[i].path}
    ensures DigestIn(prior, visits[i].path) != visits[i].digest ==>
      ChangedBy(prior, visits[..i + 1]) == ChangedBy(prior, visits[..i]) + [visits[i].path]
    ensures DigestIn(prior, visits[i].path) == visits[i].digest ==>
      ChangedBy(prior, visits[..i + 1]) == ChangedBy(prior, visits[..i])
  {
    assert visits[..i + 1][..i] == visits[..i];
  }

  // ---- The table and the index ------------------------------------------------------------------

  datatype Row = Row(digest: Digest, scannedAt: int)

  type Table = map<(string, Path), Row>

  function RowsOf(table: Table, project: string): Rows {
    map key | key in table && key.0 == project :: key.1 := table[key].digest
  }

  /** Only this project's rows differ. */
  ghost predicate SameElsewhere(before: Table, after: Table, project: string) {
    forall other | other != project :: RowsOf(after, other) == RowsOf(before, other)
  }

  lemma UpsertSetsOneRow(table: Table, project: string, path: Path, row: Row)
    ensures var after := table[(project, path) := row];
      RowsOf(after, project) == RowsOf(table, project)[path := row.digest] && SameElsewhere(table, after, project)
  {
  }

  lemma DeleteDropsOneRow(table: Table, project: string, path: Path)
    ensures var after := table - {(project, path)};
      RowsOf(after, project) == RowsOf(table, project) - {path} && SameElsewhere(table, after, project)
  {
    var after := table - {(project, path)};
    forall other | other != project ensures RowsOf(after, other) == RowsOf(table, other) {
      assert forall p :: (other, p) in after <==> (other, p) in table;
    }
    assert forall p :: (project, p) in after <==> (project, p) in table && p != path;
  }

  /** The scan_state table: one row per project and path. */
  class StateTable {
    var rows: Table

    /** ListScanState */
    function List(project: string): Rows
      reads this
    {
      RowsOf(rows, project)
    }

    method Upsert(project: string, path: Path, digest: Digest, now: int)
      modifies this
      ensures rows == old(rows)[(project, path) := Row(digest, now)]
    {
      rows := rows[(project, path) := Row(digest, now)];
    }

    method Delete(project: string, path: Path)
      modifies this
      ensures rows == old(rows) - {(project, path)}
    {
      rows := rows - {(project, path)};
    }
  }

  /** The table after recording these visits of a project. */
  function Upserted(table: Table, project: string, visits: seq<Visit>, now: int): Table {
    if visits == [] then table
    else
      var last := visits[|visits| - 1];
      Upserted(table, project, visits[..|visits| - 1], now)[(project, last.path) := Row(last.digest, now)]
  }

  lemma UpsertedSnoc(table: Table, project: string, visits: seq<Visit>, i: nat, now: int)
    requires i < |visits|
    ensures Upserted(table, project, visits[..i + 1], now)
         == Upserted(table, project, visits[..i], now)[(project, visits[i].path) := Row(visits[i].digest, now)]
  {
    assert visits[..i + 1][..i] == visits[..i];
  }

  /** It holds the project's rows with the visits recorded over them, and all other rows. */
  lemma {:induction false} UpsertedRows(table: Table, project: string, visits: seq<Visit>, now: int)
    ensures RowsOf(Upserted(table, project, visits, now), project) == RowsOf(table, project) + Recorded(visits)
    ensures SameElsewhere(table, Upserted(table, project, visits, now), project)
  {
    if visits == [] {
      assert RowsOf(table, project) + map[] == RowsOf(table, project);
    } else {
      var n := |visits| - 1;
      UpsertedRows(table, project, visits[..n], now);
      assert visits[..n + 1] == visits;
      Snoc(RowsOf(table, project), visits, n);
      UpsertSetsOneRow(Upserted(table, project, visits[..n], now), project, visits[n].path, Row(visits[n].digest, now));
    }
  }

  /** Every visited row has the time of the scan. */
  lemma {:induction false} UpsertedNow(table: Table, project: string, visits: seq<Visit>, now: int)
    ensures forall v | v in visits ::
      (project, v.path) in Upserted(table, project, visits, now) && Upserted(table, project, visits, now)[(project, v.path)].scannedAt == now
  {
    if visits != [] {
      var last := |visits| - 1;
      UpsertedNow(table, project, visits[..last], now);
      assert visits == visits[..last] + [visits[last]];
    }
  }

  /** What Commit has done to the table after deleting these paths. */
  ghost predicate DeletedTo(before: Table, now: Table, project: string, done: seq<Path>) {
    RowsOf(now, project) == RowsOf(before, project) - (set path | path in done) && SameElsewhere(before, now, project)
  }

  lemma DeleteOn(before: Table, now: Table, project: string, removed: seq<Path>, i: nat)
    requires i < |removed| && DeletedTo(before, now, project, removed[..i])
    ensures DeletedTo(before, now - {(project, removed[i])}, project, removed[..i + 1])
  {
    assert removed[..i + 1] == removed[..i] + [removed[i]];
    DeleteDropsOneRow(now, project, removed[i]);
  }

  datatype ChangeSet = ChangeSet(changed: seq<Path>, removed: seq<Path>)

  ghost predicate Lists(removed: seq<Path>, paths: set<Path>) {
    && (forall path :: path in removed <==> path in paths)
    && (forall i, j | 0 <= i < j < |removed| :: removed[i] != removed[j])
  }

  class Indexer {
    const table: StateTable

    constructor (table: StateTable)
      ensures this.table == table
    {
      this.table := table;
    }

    /** stop says after how many recorded files the walk ends in an error (an unreadable
        directory, a cancelled context, a failed write), if it does. */
    method Diff(project: string, tree: seq<Entry>, now: int, stop: Option<nat>) returns (cs: Option<ChangeSet>)
      modifies table
      ensures cs.Some? <==> stop == None || stop.value > |VisitsIn([], tree)|
      ensures var prior, visits := old(table.List(project)), VisitsIn([], tree);
        cs.Some? ==>
          && table.List(project) == prior + Recorded(visits)
          && cs.value.changed == ChangedBy(prior, visits)
          && Lists(cs.value.removed, RemovedBy(prior, visits))
      ensures var prior, visits := old(table.List(project)), VisitsIn([], tree);
        cs.None? ==> table.List(project) == prior + Recorded(visits[..stop.value])
      ensures SameElsewhere(old(table.rows), table.rows, project)
    {
      var prior, visits := table.List(project), VisitsIn([], tree);
      UpsertedRows(table.rows, project, visits, now);
      if stop.Some? && stop.value <= |visits| {
        UpsertedRows(table.rows, project, visits[..stop.value], now);
      }
      var changed, seen := Walk(project, prior, visits, now, stop);
      if stop.Some? && stop.value <= |visits| {
        return None;
      }
      var removed := Unseen(prior, seen);
      return Some(ChangeSet(changed, removed));
    }

    method Walk(project: string, prior: Rows, visits: seq<Visit>, now: int, stop: Option<nat>)
      returns (changed: seq<Path>, seen: set<Path>)
      modifies table
      ensures var reached := if stop.Some? && stop.value <= |visits| then visits[..stop.value] else visits;
        && changed == ChangedBy(prior, reached) && seen == Recorded(reached).Keys
        && table.rows == Upserted(old(table.rows), project, reached, now)
    {
      changed, seen := [], {};
      var i := 0;
      while i < |visits| && stop != Some(i)
        invariant 0 <= i <= |visits| && (stop.Some? ==> i <= stop.value)
        invariant changed == ChangedBy(prior, visits[..i]) && seen == Recorded(visits[..i]).Keys
        invariant table.rows == Upserted(old(table.rows), project, visits[..i], now)
      {
        Snoc(prior, visits, i);
        UpsertedSnoc(old(table.rows), project, visits, i, now);
        seen := seen + {visits[i].path};
        if DigestIn(prior, visits[i].path) != visits[i].digest {
          changed := changed + [visits[i].path];
        }
        table.Upsert(project, visits[i].path, visits[i].digest, now);
        i := i + 1;
      }
      assert i == |visits| ==> visits[..i] == visits;
    }

    /** The map's keys come in any order. */
    method Unseen(prior: Rows, seen: set<Path>) returns (removed: seq<Path>)
      ensures Lists(removed, prior.Keys - seen)
    {
      removed := [];
      var left := prior.Keys;
      while left != {}
        invariant left <= prior.Keys
        invariant Lists(removed, prior.Keys - left - seen)
        decreases left
      {
        var path :| path in left;
        assert path !in removed;
        if path !in seen {
          removed := removed + [path];
        }
        left := left - {path};
      }
    }

    /** stop says after how many deletions Commit ends in an error, if it does. */
    method Commit(project: string, cs: ChangeSet, stop: Option<nat>) returns (ok: bool)
      modifies table
      ensures ok <==> stop == None || stop.value >= |cs.removed|
      ensures DeletedTo(old(table.rows), table.rows, project, if ok then cs.removed else cs.removed[..stop.value])
    {
      var i := 0;
      while i < |cs.removed|
        invariant 0 <= i <= |cs.removed| && (stop.Some? ==> i <= stop.value)
        invariant DeletedTo(old(table.rows), table.rows, project, cs.removed[..i])
      {
        if stop == Some(i) {
          return false;
        }
        DeleteOn(old(table.rows), table.rows, project, cs.removed, i);
        table.Delete(project, cs.removed[i]);
        i := i + 1;
      }
      assert cs.removed[..i] == cs.removed;
      return true;
    }
  }

  // ---- A replica fed by the change sets ---------------------------------------------------------

  /** The project's rows, and a copy of the files kept only by reading each change set's changed
      files and dropping its removed ones. */
  datatype State = State(rows: Rows, replica: Rows)

  function Files(tree: seq<Entry>): Rows {
    Recorded(VisitsIn([], tree))
  }

  function Applied(replica: Rows, files: Rows, changed: seq<Path>, removed: set<Path>): Rows {
    replica + (map path | path in changed && path in files :: files[path]) - removed
  }

  /** A Diff, its change set applied to the replica, and its Commit. */
  function Scan(s: State, tree: seq<Entry>): State {
    var visits := VisitsIn([], tree);
    var removed := RemovedBy(s.rows, visits);
    State(s.rows + Files(tree) - removed, Applied(s.replica, Files(tree), ChangedBy(s.rows, visits), removed))
  }

  /** A Diff that ended in an error after recording the first `recorded` files. */
  function BrokenScan(s: State, tree: seq<Entry>, recorded: nat): State
    requires recorded <= |VisitsIn([], tree)|
  {
    s.(rows := s.rows + Recorded(VisitsIn([], tree)[..recorded]))
  }

  /** What the methods leave in the table is what Scan says. */
  method ScanOnce(indexer: Indexer, project: string, tree: seq<Entry>, now: int, ghost replica: Rows) returns (cs: ChangeSet)
    modifies indexer.table
    ensures var s := Scan(State(old(indexer.table.List(project)), replica), tree);
      && indexer.table.List(project) == s.rows
      && s.replica == Applied(replica, Files(tree), cs.changed, set path | path in cs.removed)
    ensures SameElsewhere(old(indexer.table.rows), indexer.table.rows, project)
  {
    var r := indexer.Diff(project, tree, now, None);
    cs := r.value;
    assert (set path | path in cs.removed) == RemovedBy(old(indexer.table.List(project)), VisitsIn([], tree));
    var _ := indexer.Commit(project, cs, None);
  }

  /** Two sets of rows are the same if they answer the same for every path. */
  lemma SameRows(a: Rows, b: Rows)
    requires forall path :: DigestIn(a, path) == DigestIn(b, path)
    ensures a == b
  {
    assert forall path :: path in a <==> DigestIn(a, path) != "";
    assert forall path :: path in b <==> DigestIn(b, path) != "";
  }

  /** What one path of the replica is after a scan. */
  lemma ReplicaAfterScan(s: State, tree: seq<Entry>, path: Path)
    requires ProperNames(tree)
    ensures DigestIn(Scan(s, tree).replica, path) ==
      if path in Files(tree) then
        if DigestIn(s.rows, path) != Files(tree)[path] then Files(tree)[path] else DigestIn(s.replica, path)
      else if path in s.rows then "" else DigestIn(s.replica, path)
  {
    var visits := VisitsIn([], tree);
    WalkVisitsOnce([], tree);
    RecordedKeys(visits);
    RecordedOfDistinct(visits);
    ChangedExactly(s.rows, visits);
    if path in Files(tree) {
      assert Visit(path, Files(tree)[path]) in visits;
      assert path in ChangedBy(s.rows, visits) <==> DigestIn(s.rows, path) != Files(tree)[path];
    }
  }

  /** A current file that the table holds and the replica has not got. */
  predicate Missed(s: State, files: Rows, path: Path) {
    path in files && DigestIn(s.rows, path) == files[path] && DigestIn(s.replica, path) != files[path]
  }

  /** A file gone from the tree that the replica has and the table has forgotten. */
  predicate Stale(s: State, files: Rows, path: Path) {
    path !in files && path in s.replica && path !in s.rows
  }

  /** A scan leaves the replica equal to the tree exactly if nothing was missed or stale. */
  lemma ScanTracksExactlyWhen(s: State, tree: seq<Entry>)
    requires ProperNames(tree)
    ensures Scan(s, tree).replica == Files(tree)
       <==> forall path :: !Missed(s, Files(tree), path) && !Stale(s, Files(tree), path)
  {
    var files, after := Files(tree), Scan(s, tree).replica;
    forall path ensures DigestIn(after, path) == DigestIn(files, path) <==> !Missed(s, files, path) && !Stale(s, files, path) {
      ReplicaAfterScan(s, tree, path);
    }
    if forall path :: !Missed(s, files, path) && !Stale(s, files, path) {
      SameRows(after, files);
    }
  }

  /** The state after scanning these trees, one per scan, from an empty table. */
  function After(trees: seq<seq<Entry>>): State {
    if trees == [] then State(map[], map[]) else Scan(After(trees[..|trees| - 1]), trees[|trees| - 1])
  }

  /** Over any history of edits, the table and the replica are the last scanned tree. */
  lemma {:induction false} HistoryTracks(trees: seq<seq<Entry>>)
    requires forall tree | tree in trees :: ProperNames(tree)
    ensures var files := if trees == [] then map[] else Files(trees[|trees| - 1]);
      After(trees) == State(files, files)
  {
    if trees != [] {
      var before, tree := trees[..|trees| - 1], trees[|trees| - 1];
      HistoryTracks(before);
      assert tree in trees;
      ScanTracksExactlyWhen(After(before), tree);
    }
  }

  /** What that tree is: its readable files with no excluded name on their path. */
  lemma FilesExactly(tree: seq<Entry>, path: Path, digest: Digest)
    requires ProperNames(tree)
    ensures path in Files(tree) && Files(tree)[path] == digest <==> Included(path) && FileAt(tree, path, digest)
  {
    var visits := VisitsIn([], tree);
    WalkVisitsOnce([], tree);
    RecordedKeys(visits);
    RecordedOfDistinct(visits);
    VisitedExactly([], tree, path, digest);
    assert [] + path == path;
  }

  /** Scanning a tree again without edits finds nothing changed and nothing removed. */
  lemma NoEditsNoChanges(tree: seq<Entry>)
    requires ProperNames(tree)
    ensures ChangedBy(Files(tree), VisitsIn([], tree)) == []
    ensures RemovedBy(Files(tree), VisitsIn([], tree)) == {}
  {
    var visits := VisitsIn([], tree);
    WalkVisitsOnce([], tree);
    RecordedOfDistinct(visits);
    ChangedExactly(Files(tree), visits);
  }

  /** After a scan that ended in an error, the next one leaves the replica equal to its tree exactly
      if every change that the broken one recorded is no longer there. */
  lemma BrokenScanLosesExactly(rows: Rows, broken: seq<Entry>, recorded: nat, tree: seq<Entry>)
    requires ProperNames(broken) && ProperNames(tree) && recorded <= |VisitsIn([], broken)|
    ensures Scan(BrokenScan(State(rows, rows), broken, recorded), tree).replica == Files(tree)
       <==> forall v | v in VisitsIn([], broken)[..recorded] && v.digest != DigestIn(rows, v.path) ::
              DigestIn(Files(tree), v.path) != v.digest
  {
    var s, kept := BrokenScan(State(rows, rows), broken, recorded), VisitsIn([], broken)[..recorded];
    WalkVisitsOnce([], broken);
    RecordedKeys(kept);
    RecordedOfDistinct(kept);
    ScanTracksExactlyWhen(s, tree);
    forall v | v in kept && v.digest != DigestIn(rows, v.path)
      ensures DigestIn(Files(tree), v.path) == v.digest <==> Missed(s, Files(tree), v.path)
    {
    }
    forall path | Missed(s, Files(tree), path) ensures Visit(path, Files(tree)[path]) in kept {
    }
  }

  /** In particular, scanning the same tree again makes up for a broken scan exactly if that one
      had recorded no change. */
  lemma RetryTracksExactlyWhen(rows: Rows, tree: seq<Entry>, recorded: nat)
    requires ProperNames(tree) && recorded <= |VisitsIn([], tree)|
    ensures Scan(BrokenScan(State(rows, rows), tree, recorded), tree).replica == Files(tree)
       <==> ChangedBy(rows, VisitsIn([], tree)[..recorded]) == []
  {
    var visits := VisitsIn([], tree);
    BrokenScanLosesExactly(rows, tree, recorded, tree);
    WalkVisitsOnce([], tree);
    RecordedOfDistinct(visits);
    ChangedExactly(rows, visits[..recorded]);
    forall v | v in visits[..recorded] ensures DigestIn(Files(tree), v.path) == v.digest {
      assert v in visits;
    }
  }

  lemma OneFile(digest: Digest)
    ensures VisitsIn([], [File("a", Some(digest))]) == [Visit(["a"], digest)]
    ensures Files([File("a", Some(digest))]) == map[["a"] := digest]
  {
    var tree, visits := [File("a", Some(digest))], [Visit(["a"], digest)];
    assert !Skipped(["a"]) by {
      assert Ext("a") == "" && Text.Lower("") == "";
    }
    assert VisitsIn([], tree[1..]) == [] && [] + ["a"] == ["a"];
    assert VisitsIn([], tree) == visits;
    assert visits[..0] == [];
    assert Recorded(visits) == map[["a"] := digest];
  }

  /** A tree of one file, recorded by a scan that then ends in an error: the retry finds nothing
      changed, and the replica never gets the file. */
  lemma RetryLosesTheFile(digest: Digest)
    ensures var tree := [File("a", Some(digest))];
      && Files(tree) == map[["a"] := digest]
      && 1 <= |VisitsIn([], tree)|
      && Scan(BrokenScan(State(map[], map[]), tree, 1), tree).replica == map[]
  {
    var tree := [File("a", Some(digest))];
    OneFile(digest);
    var s := BrokenScan(State(map[], map[]), tree, 1);
    assert VisitsIn([], tree)[..1] == VisitsIn([], tree);
    assert s.rows == Files(tree) && s.replica == map[];
    forall path ensures DigestIn(Scan(s, tree).replica, path) == DigestIn(map[], path) {
      ReplicaAfterScan(s, tree, path);
    }
    SameRows(Scan(s, tree).replica, map[]);
  }

  /** A scan whose change set was applied but whose Commit deleted only some of the removed rows. */
  function HalfCommitted(s: State, tree: seq<Entry>, deleted: set<Path>): State {
    State(s.rows + Files(tree) - deleted, Scan(s, tree).replica)
  }

  /** After it, the next scan leaves the replica equal to its tree exactly if no file whose row was
      to be deleted and was not is back with its old digest. */
  lemma BrokenCommitLosesExactly(rows: Rows, tree: seq<Entry>, deleted: set<Path>, next: seq<Entry>)
    requires ProperNames(tree) && ProperNames(next) && deleted <= RemovedBy(rows, VisitsIn([], tree))
    ensures Scan(HalfCommitted(State(rows, rows), tree, deleted), next).replica == Files(next)
       <==> forall path | path in RemovedBy(rows, VisitsIn([], tree)) - deleted :: DigestIn(Files(next), path) != rows[path]
  {
    var s := HalfCommitted(State(rows, rows), tree, deleted);
    var left := RemovedBy(rows, VisitsIn([], tree)) - deleted;
    SyncedScanTracks(rows, tree);
    ScanTracksExactlyWhen(s, next);
    forall path ensures Missed(s, Files(next), path) <==> path in left && DigestIn(Files(next), path) == rows[path] {
    }
  }

  lemma SyncedScanTracks(rows: Rows, tree: seq<Entry>)
    requires ProperNames(tree)
    ensures Scan(State(rows, rows), tree).replica == Files(tree)
  {
    ScanTracksExactlyWhen(State(rows, rows), tree);
  }
}
