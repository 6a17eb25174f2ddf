/** Gate 1 of the deduplication layer: findings with one CWE, path and start line become one
    (internal/dedup/dedup.go, internal/dedup/gates.go). */
module Dedup {
  import opened Findings
  import Detection

  /** The hashed fields. The truncated hash is taken to be injective, and so is the text that is
      hashed; KeyText.TextsAgreeExactlyWhen says where it is not. */
  datatype Key = Key(cwe: string, path: string, line: int)

  function Gate1Key(f: Finding): Key {
    Key(f.cwe, f.path, f.start)
  }

  datatype MergeRecord = MergeRecord(keptID: FindingID, droppedID: FindingID, crossPath: bool)

  datatype Stats = Stats(inputCount: nat, outputCount: nat, mergeCount: nat, autoSuppressed: nat)

  function CrossPath(a: Finding, b: Finding): bool {
    || (a.sourcePath == Pattern && b.sourcePath == Semantic)
    || (a.sourcePath == Semantic && b.sourcePath == Pattern)
    || a.sourcePath == Both || b.sourcePath == Both
  }

  function Merge(a: Finding, b: Finding): Finding {
    var winner := if b.confidence > a.confidence then b else a;
    var loser := if b.confidence > a.confidence then a else b;
    var joined := if CrossPath(a, b) then winner.(sourcePath := Both) else winner;
    if loser.pinned then joined.(severity := loser.severity, pinned := true) else joined
  }

  method MergeWithRecord(a: Finding, b: Finding) returns (merged: Finding, rec: MergeRecord)
    ensures merged == Merge(a, b)
    ensures rec == MergeRecord(merged.id, if b.confidence > a.confidence then a.id else b.id, CrossPath(a, b))
  {
    var crossPath := CrossPath(a, b);
    var winner, loser := a, b;
    if b.confidence > a.confidence {
      winner, loser := b, a;
    }
    if crossPath {
      winner := winner.(sourcePath := Both);
    }
    if loser.pinned {
      winner := winner.(severity := loser.severity, pinned := true);
    }
    return winner, MergeRecord(winner.id, loser.id, crossPath);
  }

  /** The findings of one key, in arrival order. */
  function Group(input: seq<Finding>, k: Key): seq<Finding> {
    if input == [] then []
    else
      var last := input[|input| - 1];
      Group(input[..|input| - 1], k) + if Gate1Key(last) == k then [last] else []
  }

  /** The findings of a group merged one after the other. */
  function MergeAll(group: seq<Finding>): Finding
    requires group != []
  {
    if |group| == 1 then group[0] else Merge(MergeAll(group[..|group| - 1]), group[|group| - 1])
  }

  /** out holds, for every key of the input, exactly the merged group of that key. */
  ghost predicate IsMerged(input: seq<Finding>, out: seq<Finding>) {
    && (forall i, j | 0 <= i < j < |out| :: Gate1Key(out[i]) != Gate1Key(out[j]))
    && (forall i | 0 <= i < |out| ::
          Group(input, Gate1Key(out[i])) != [] && out[i] == MergeAll(Group(input, Gate1Key(out[i]))))
    && (forall k :: Group(input, k) != [] ==> exists i | 0 <= i < |out| :: Gate1Key(out[i]) == k)
  }

  lemma GroupSnoc(input: seq<Finding>, f: Finding, k: Key)
    ensures Gate1Key(f) == k ==> Group(input + [f], k) == Group(input, k) + [f]
    ensures Gate1Key(f) != k ==> Group(input + [f], k) == Group(input, k)
  {
    assert (input + [f])[..|input|] == input;
  }

  /** keyMap finds the one finding of each key in out. */
  ghost predicate Indexes(keyMap: map<Key, nat>, out: seq<Finding>) {
    && (forall k | k in keyMap :: keyMap[k] < |out| && Gate1Key(out[keyMap[k]]) == k)
    && (forall i | 0 <= i < |out| :: Gate1Key(out[i]) in keyMap && keyMap[Gate1Key(out[i])] == i)
  }

  /** The indexed findings are the merged groups of the input. */
  ghost predicate HoldsGroups(input: seq<Finding>, keyMap: map<Key, nat>, out: seq<Finding>) {
    && Indexes(keyMap, out)
    && forall k :: HoldsGroup(input, keyMap, out, k)
  }

  ghost predicate HoldsGroup(input: seq<Finding>, keyMap: map<Key, nat>, out: seq<Finding>, k: Key)
    requires Indexes(keyMap, out)
  {
    if k in keyMap then Group(input, k) != [] && out[keyMap[k]] == MergeAll(Group(input, k))
    else Group(input, k) == []
  }

  lemma MergeKeepsKey(a: Finding, b: Finding)
    requires Gate1Key(a) == Gate1Key(b)
    ensures Gate1Key(Merge(a, b)) == Gate1Key(a)
  {
  }

  lemma MergeInPlace(input: seq<Finding>, f: Finding, keyMap: map<Key, nat>, out: seq<Finding>)
    requires Gate1Key(f) in keyMap && HoldsGroups(input, keyMap, out)
    ensures var i := keyMap[Gate1Key(f)];
      HoldsGroups(input + [f], keyMap, out[i := Merge(out[i], f)])
  {
    var i := keyMap[Gate1Key(f)];
    var out' := out[i := Merge(out[i], f)];
    MergeKeepsKey(out[i], f);
    forall k ensures HoldsGroup(input + [f], keyMap, out', k) {
      assert HoldsGroup(input, keyMap, out, k);
      GroupSnoc(input, f, k);
      if k == Gate1Key(f) {
        MergeSnoc(Group(input, k), f);
      }
    }
  }

  lemma AppendFirst(input: seq<Finding>, f: Finding, keyMap: map<Key, nat>, out: seq<Finding>)
    requires Gate1Key(f) !in keyMap && HoldsGroups(input, keyMap, out)
    ensures HoldsGroups(input + [f], keyMap[Gate1Key(f) := |out|], out + [f])
  {
    var keyMap', out' := keyMap[Gate1Key(f) := |out|], out + [f];
    forall k ensures HoldsGroup(input + [f], keyMap', out', k) {
      assert HoldsGroup(input, keyMap, out, k);
      GroupSnoc(input, f, k);
    }
  }

  lemma IndexedIsMerged(input: seq<Finding>, keyMap: map<Key, nat>, out: seq<Finding>)
    requires HoldsGroups(input, keyMap, out)
    ensures IsMerged(input, out)
  {
    forall k | Group(input, k) != [] ensures exists i | 0 <= i < |out| :: Gate1Key(out[i]) == k {
      assert HoldsGroup(input, keyMap, out, k);
      assert Gate1Key(out[keyMap[k]]) == k;
    }
    forall i | 0 <= i < |out|
      ensures Group(input, Gate1Key(out[i])) != [] && out[i] == MergeAll(Group(input, Gate1Key(out[i])))
    {
      assert HoldsGroup(input, keyMap, out, Gate1Key(out[i]));
    }
  }

  function IdsOf(fs: seq<Finding>): seq<FindingID> {
    seq(|fs|, i requires 0 <= i < |fs| => fs[i].id)
  }

  function Dropped(records: seq<MergeRecord>): seq<FindingID> {
    seq(|records|, i requires 0 <= i < |records| => records[i].droppedID)
  }

  /** Every finding is either kept or named as dropped. */
  predicate AllNamed(input: seq<Finding>, out: seq<Finding>, records: seq<MergeRecord>) {
    multiset(IdsOf(input)) == multiset(IdsOf(out)) + multiset(Dropped(records))
  }

  lemma NamedWhenMerged(input: seq<Finding>, f: Finding, out: seq<Finding>, i: nat, merged: Finding,
                        records: seq<MergeRecord>, rec: MergeRecord)
    requires i < |out| && AllNamed(input, out, records)
    requires multiset{merged.id, rec.droppedID} == multiset{out[i].id, f.id}
    ensures AllNamed(input + [f], out[i := merged], records + [rec])
  {
    assert IdsOf(input + [f]) == IdsOf(input) + [f.id];
    assert IdsOf(out[i := merged]) == IdsOf(out)[i := merged.id];
    assert Dropped(records + [rec]) == Dropped(records) + [rec.droppedID];
  }

  lemma NamedWhenAppended(input: seq<Finding>, f: Finding, out: seq<Finding>, records: seq<MergeRecord>)
    requires AllNamed(input, out, records)
    ensures AllNamed(input + [f], out + [f], records)
  {
    assert IdsOf(input + [f]) == IdsOf(input) + [f.id];
    assert IdsOf(out + [f]) == IdsOf(out) + [f.id];
  }

  /** A key that comes first in out came first in the input. */
  ghost predicate InArrivalOrder(input: seq<Finding>, out: seq<Finding>) {
    forall i, j | 0 <= i < j < |out| :: ArrivesBefore(input, Gate1Key(out[i]), Gate1Key(out[j]))
  }

  ghost predicate ArrivesBefore(input: seq<Finding>, k: Key, later: Key) {
    exists p :: 0 <= p < |input| && Gate1Key(input[p]) == k && NotAmong(input[..p + 1], later)
  }

  predicate NotAmong(input: seq<Finding>, k: Key) {
    forall q | 0 <= q < |input| :: Gate1Key(input[q]) != k
  }

  lemma StillArrivesBefore(input: seq<Finding>, f: Finding, k: Key, later: Key)
    requires ArrivesBefore(input, k, later)
    ensures ArrivesBefore(input + [f], k, later)
  {
    var p :| 0 <= p < |input| && Gate1Key(input[p]) == k && NotAmong(input[..p + 1], later);
    assert (input + [f])[..p + 1] == input[..p + 1] && (input + [f])[p] == input[p];
  }

  lemma OrderWhenMerged(input: seq<Finding>, f: Finding, out: seq<Finding>, i: nat, merged: Finding)
    requires i < |out| && InArrivalOrder(input, out) && Gate1Key(merged) == Gate1Key(out[i])
    ensures InArrivalOrder(input + [f], out[i := merged])
  {
    var out' := out[i := merged];
    forall a, b | 0 <= a < b < |out'| ensures ArrivesBefore(input + [f], Gate1Key(out'[a]), Gate1Key(out'[b])) {
      StillArrivesBefore(input, f, Gate1Key(out[a]), Gate1Key(out[b]));
    }
  }

  lemma OrderWhenAppended(input: seq<Finding>, keyMap: map<Key, nat>, f: Finding, out: seq<Finding>)
    requires HoldsGroups(input, keyMap, out) && Gate1Key(f) !in keyMap && InArrivalOrder(input, out)
    ensures InArrivalOrder(input + [f], out + [f])
  {
    var out' := out + [f];
    forall a, b | 0 <= a < b < |out'| ensures ArrivesBefore(input + [f], Gate1Key(out'[a]), Gate1Key(out'[b])) {
      if b < |out| {
        StillArrivesBefore(input, f, Gate1Key(out[a]), Gate1Key(out[b]));
      } else {
        assert HoldsGroup(input, keyMap, out, Gate1Key(out[a])) && HoldsGroup(input, keyMap, out, Gate1Key(f));
        ArrivesLast(input, f, Gate1Key(out[a]), Gate1Key(f));
      }
    }
  }

  lemma ArrivesLast(input: seq<Finding>, f: Finding, k: Key, later: Key)
    requires Group(input, k) != [] && Group(input, later) == []
    ensures ArrivesBefore(input + [f], k, later)
  {
    GroupMembers(input, k);
    GroupMembers(input, later);
    assert Group(input, k)[0] in Group(input, k);
    var p :| 0 <= p < |input| && input[p] == Group(input, k)[0];
    forall q | 0 <= q < |input| ensures Gate1Key(input[q]) != later {
      assert input[q] in input && input[q] !in Group(input, later);
    }
    assert (input + [f])[..p + 1] == input[..p + 1] && (input + [f])[p] == input[p];
  }

  /** What the gate 1 loop holds after this input. */
  ghost predicate Processed(input: seq<Finding>, keyMap: map<Key, nat>, out: seq<Finding>, records: seq<MergeRecord>) {
    && HoldsGroups(input, keyMap, out) && InArrivalOrder(input, out)
    && |input| == |out| + |records| && AllNamed(input, out, records)
  }

  lemma ProcessedMerging(input: seq<Finding>, f: Finding, keyMap: map<Key, nat>, out: seq<Finding>,
                         records: seq<MergeRecord>, rec: MergeRecord)
    requires Processed(input, keyMap, out, records) && Gate1Key(f) in keyMap
    requires var kept := out[keyMap[Gate1Key(f)]];
      rec.droppedID == if f.confidence > kept.confidence then kept.id else f.id
    ensures var i := keyMap[Gate1Key(f)];
      Processed(input + [f], keyMap, out[i := Merge(out[i], f)], records + [rec])
  {
    var i := keyMap[Gate1Key(f)];
    var merged := Merge(out[i], f);
    MergeInPlace(input, f, keyMap, out);
    MergeKeepsKey(out[i], f);
    OrderWhenMerged(input, f, out, i, merged);
    assert multiset{merged.id, rec.droppedID} == multiset{out[i].id, f.id};
    NamedWhenMerged(input, f, out, i, merged, records, rec);
  }

  lemma ProcessedAppending(input: seq<Finding>, f: Finding, keyMap: map<Key, nat>, out: seq<Finding>, records: seq<MergeRecord>)
    requires Processed(input, keyMap, out, records) && Gate1Key(f) !in keyMap
    ensures Processed(input + [f], keyMap[Gate1Key(f) := |out|], out + [f], records)
  {
    AppendFirst(input, f, keyMap, out);
    NamedWhenAppended(input, f, out, records);
    OrderWhenAppended(input, keyMap, f, out);
  }

  /** The gate 1 loop: a first finding of a key is appended, a later one merged in place. */
  method Gate1(input: seq<Finding>) returns (out: seq<Finding>, records: seq<MergeRecord>)
    ensures IsMerged(input, out) && InArrivalOrder(input, out)
    ensures |input| == |out| + |records| && AllNamed(input, out, records)
  {
    var keyMap: map<Key, nat> := map[];
    out, records := [], [];
    var n := 0;
    while n < |input|
      invariant 0 <= n <= |input| && Processed(input[..n], keyMap, out, records)
    {
      var f := input[n];
      assert input[..n + 1] == input[..n] + [f];
      var k := Gate1Key(f);
      if k in keyMap {
        var i := keyMap[k];
        var merged, rec := MergeWithRecord(out[i], f);
        ProcessedMerging(input[..n], f, keyMap, out, records, rec);
        out := out[i := merged];
        records := records + [rec];
      } else {
        ProcessedAppending(input[..n], f, keyMap, out, records);
        keyMap := keyMap[k := |out|];
        out := out + [f];
      }
      n := n + 1;
    }
    assert input[..n] == input;
    IndexedIsMerged(input, keyMap, out);
  }

  lemma MergeSnoc(group: seq<Finding>, f: Finding)
    requires group != []
    ensures MergeAll(group + [f]) == Merge(MergeAll(group), f)
  {
    assert (group + [f])[..|group|] == group;
  }

  function Severities(out: seq<Finding>): seq<Severity> {
    seq(|out|, i requires 0 <= i < |out| => out[i].severity)
  }

  lemma SeveritiesSnoc(out: seq<Finding>, f: Finding)
    ensures multiset(Severities(out + [f])) == multiset(Severities(out)) + multiset{f.severity}
  {
    assert Severities(out + [f]) == Severities(out) + [f.severity];
  }

  method FinishAll(survivors: seq<Finding>, finish: Finding -> Finding) returns (out: seq<Finding>, suppressed: nat)
    ensures |out| == |survivors| && forall i | 0 <= i < |out| :: out[i] == finish(survivors[i])
    ensures suppressed == multiset(Severities(out))[Suppressed]
  {
    out, suppressed := [], 0;
    var i := 0;
    while i < |survivors|
      invariant 0 <= i <= |survivors| && |out| == i
      invariant forall h | 0 <= h < i :: out[h] == finish(survivors[h])
      invariant suppressed == multiset(Severities(out))[Suppressed]
    {
      var f := finish(survivors[i]);
      SeveritiesSnoc(out, f);
      out := out + [f];
      if f.severity == Suppressed {
        suppressed := suppressed + 1;
      }
      i := i + 1;
    }
  }

  /** The whole pass without a history database: gate 1, the two stub gates, and the scoring of
      each survivor by finish. */
  method Process(input: seq<Finding>, finish: Finding -> Finding)
    returns (out: seq<Finding>, records: seq<MergeRecord>, stats: Stats, ghost merged: seq<Finding>)
    ensures IsMerged(input, merged) && InArrivalOrder(input, merged) && |out| == |merged|
    ensures AllNamed(input, merged, records)
    ensures forall i | 0 <= i < |out| :: out[i] == finish(merged[i])
    ensures stats.inputCount == stats.outputCount + stats.mergeCount
    ensures stats == Stats(|input|, |out|, |records|, multiset(Severities(out))[Suppressed])
  {
    var survivors, suppressed;
    survivors, records := Gate1(input);
    merged := survivors;
    out, suppressed := FinishAll(survivors, finish);
    stats := Stats(|input|, |out|, |records|, suppressed);
  }

  // ---- Which findings are merged ----------------------------------------------------------------

  predicate SamePlace(a: Finding, b: Finding) {
    a.cwe == b.cwe && a.path == b.path && a.start == b.start
  }

  /** Which member a merged finding comes from: the first most confident one. */
  ghost predicate ComesFrom(m: Finding, group: seq<Finding>, i: nat) {
    && i < |group| && m == group[i].(sourcePath := m.sourcePath, severity := m.severity, pinned := m.pinned)
    && (forall j | 0 <= j < i :: group[j].confidence < group[i].confidence)
    && (forall j | i <= j < |group| :: group[j].confidence <= group[i].confidence)
  }

  lemma {:induction false} MergedComesFrom(group: seq<Finding>) returns (i: nat)
    requires group != []
    ensures ComesFrom(MergeAll(group), group, i)
  {
    var last := |group| - 1;
    if last == 0 {
      i := 0;
    } else {
      i := MergedComesFrom(group[..last]);
      i := ComesFromAfter(MergeAll(group[..last]), group[..last], i, group[last]);
      assert group == group[..last] + [group[last]];
    }
  }

  lemma ComesFromAfter(m: Finding, group: seq<Finding>, i: nat, f: Finding) returns (j: nat)
    requires ComesFrom(m, group, i)
    ensures ComesFrom(Merge(m, f), group + [f], j)
  {
    j := if f.confidence > m.confidence then |group| else i;
  }

  /** m is f but for the path label, the severity and the pin, and f is a most confident finding
      with its CWE, path and start line. */
  ghost predicate Represents(m: Finding, f: Finding, input: seq<Finding>) {
    && f in input && m == f.(sourcePath := m.sourcePath, severity := m.severity, pinned := m.pinned)
    && forall g | g in input && SamePlace(g, f) :: g.confidence <= f.confidence
  }

  ghost predicate IsRepresentative(m: Finding, input: seq<Finding>) {
    exists f :: Represents(m, f, input)
  }

  /** Each finding has exactly one merged finding with its CWE, path and start line, and each merged
      finding represents those with the same. */
  lemma MergedByPlace(input: seq<Finding>, out: seq<Finding>)
    requires IsMerged(input, out)
    ensures forall f | f in input :: exists i | 0 <= i < |out| :: SamePlace(f, out[i])
    ensures forall i, j | 0 <= i < j < |out| :: !SamePlace(out[i], out[j])
    ensures forall i | 0 <= i < |out| :: IsRepresentative(out[i], input)
  {
    forall i | 0 <= i < |out| ensures IsRepresentative(out[i], input) {
      var f := MergedMember(input, out, i);
      assert Represents(out[i], f, input);
    }
    forall f | f in input ensures exists i | 0 <= i < |out| :: SamePlace(f, out[i]) {
      var i := MergedInto(input, out, f);
    }
    forall i, j | 0 <= i < j < |out| ensures !SamePlace(out[i], out[j]) {
      assert Gate1Key(out[i]) != Gate1Key(out[j]);
    }
  }

  lemma MergedInto(input: seq<Finding>, out: seq<Finding>, f: Finding) returns (i: nat)
    requires IsMerged(input, out) && f in input
    ensures i < |out| && SamePlace(f, out[i])
  {
    GroupMembers(input, Gate1Key(f));
    assert f in Group(input, Gate1Key(f));
    i :| 0 <= i < |out| && Gate1Key(out[i]) == Gate1Key(f);
  }

  lemma MergedMember(input: seq<Finding>, out: seq<Finding>, i: nat) returns (f: Finding)
    requires IsMerged(input, out) && i < |out|
    ensures Represents(out[i], f, input)
  {
    var group := Group(input, Gate1Key(out[i]));
    GroupMembers(input, Gate1Key(out[i]));
    var p := MergedComesFrom(group);
    f := group[p];
    forall g | g in input && SamePlace(g, f) ensures g.confidence <= f.confidence {
      assert g in group;
      var q :| 0 <= q < |group| && group[q] == g;
    }
  }

  // ---- The merged finding does not depend on the arrival order ---------------------------

  /** The path label of a group: one path if all agree on it, otherwise BOTH. */
  function JoinedPath(group: seq<Finding>): SourcePath {
    if forall f | f in group :: f.sourcePath == Pattern then Pattern
    else if forall f | f in group :: f.sourcePath == Semantic then Semantic
    else Both
  }

  /** The merged finding has the group's highest confidence. */
  lemma {:induction false} MergedConfidence(group: seq<Finding>)
    requires group != []
    ensures exists f | f in group :: f.confidence == MergeAll(group).confidence
    ensures forall f | f in group :: f.confidence <= MergeAll(group).confidence
  {
    if |group| > 1 {
      var init, last := group[..|group| - 1], group[|group| - 1];
      MergedConfidence(init);
      assert group == init + [last];
      var f :| f in init && f.confidence == MergeAll(init).confidence;
      assert f in group && last in group;
      assert MergeAll(group).confidence == Max(MergeAll(init).confidence, last.confidence);
    } else {
      assert group[0] in group;
    }
  }

  /** It is pinned exactly if some member is, and then to the severity of a pinned member. */
  lemma {:induction false} MergedPin(group: seq<Finding>)
    requires group != []
    ensures MergeAll(group).pinned <==> exists f | f in group :: f.pinned
    ensures MergeAll(group).pinned ==> exists f | f in group && f.pinned :: f.severity == MergeAll(group).severity
  {
    if |group| > 1 {
      var init, last := group[..|group| - 1], group[|group| - 1];
      MergedPin(init);
      assert group == init + [last];
      assert forall f :: f in group <==> f in init || f == last;
      assert MergeAll(group) == Merge(MergeAll(init), last);
    } else {
      assert group[0] in group;
    }
  }

  /** It carries the joined path label. */
  lemma {:induction false} MergedPath(group: seq<Finding>)
    requires group != []
    ensures MergeAll(group).sourcePath == JoinedPath(group)
  {
    if |group| > 1 {
      var init, last := group[..|group| - 1], group[|group| - 1];
      MergedPath(init);
      assert group == init + [last];
      assert forall f :: f in group <==> f in init || f == last;
      assert init[0] in init;
      assert MergeAll(group) == Merge(MergeAll(init), last);
    } else {
      assert forall f :: f in group <==> f == group[0];
    }
  }

  lemma {:induction false} GroupMembers(input: seq<Finding>, k: Key)
    ensures forall f :: f in Group(input, k) <==> f in input && Gate1Key(f) == k
  {
    if input != [] {
      var last := |input| - 1;
      GroupMembers(input[..last], k);
      assert input == input[..last] + [input[last]];
    }
  }

  lemma SameMembersMergeAlike(a: seq<Finding>, b: seq<Finding>)
    requires a != [] && b != [] && forall f :: f in a <==> f in b
    ensures MergeAll(a).confidence == MergeAll(b).confidence
    ensures MergeAll(a).sourcePath == MergeAll(b).sourcePath
    ensures MergeAll(a).pinned == MergeAll(b).pinned
  {
    MergedConfidence(a);
    MergedConfidence(b);
    MergedPin(a);
    MergedPin(b);
    MergedPath(a);
    MergedPath(b);
    var x :| x in a && x.confidence == MergeAll(a).confidence;
    var y :| y in b && y.confidence == MergeAll(b).confidence;
    assert x in b && y in a;
  }

  lemma SameGroups(input: seq<Finding>, other: seq<Finding>, k: Key)
    requires multiset(input) == multiset(other)
    ensures forall f :: f in Group(input, k) <==> f in Group(other, k)
    ensures Group(input, k) == [] <==> Group(other, k) == []
  {
    GroupMembers(input, k);
    GroupMembers(other, k);
    forall f ensures f in Group(input, k) <==> f in Group(other, k) {
      assert f in multiset(input) <==> f in multiset(other);
    }
    if Group(input, k) != [] {
      assert Group(input, k)[0] in Group(other, k);
    }
    if Group(other, k) != [] {
      assert Group(other, k)[0] in Group(input, k);
    }
  }

  /** The parts of a merged finding that do not depend on the arrival order. */
  predicate Alike(a: Finding, b: Finding) {
    Gate1Key(a) == Gate1Key(b) && a.confidence == b.confidence && a.sourcePath == b.sourcePath && a.pinned == b.pinned
  }

  predicate HasTwin(f: Finding, out: seq<Finding>) {
    exists j | 0 <= j < |out| :: Alike(f, out[j])
  }

  /** Any arrival order gives the same keys, and per key the same confidence, path label and
      pinned flag. */
  lemma ArrivalOrderDoesNotMatter(input: seq<Finding>, other: seq<Finding>, out: seq<Finding>, out': seq<Finding>)
    requires multiset(input) == multiset(other)
    requires IsMerged(input, out) && IsMerged(other, out')
    ensures forall i | 0 <= i < |out| :: HasTwin(out[i], out')
  {
    forall i | 0 <= i < |out| ensures HasTwin(out[i], out') {
      var k := Gate1Key(out[i]);
      SameGroups(input, other, k);
      var j :| 0 <= j < |out'| && Gate1Key(out'[j]) == k;
      SameMembersMergeAlike(Group(input, k), Group(other, k));
      assert Alike(out[i], out'[j]);
    }
  }

  /** From the producers to gate 1: every error-free schedule of the detection stage leads to
      the same keys with the same confidence, path label and pinned flag. */
  lemma ScheduleDoesNotMatter(programs: seq<seq<Finding>>, steps: seq<Detection.Step>, steps': seq<Detection.Step>,
                              out: seq<Finding>, out': seq<Finding>)
    requires Detection.Run(Detection.Start(programs), steps).Some?
    requires Detection.Run(Detection.Start(programs), steps').Some?
    requires var s := Detection.Run(Detection.Start(programs), steps).value;
      s.done && Detection.NoFailure(s) && IsMerged(Detection.Payload(s.received), out)
    requires var s' := Detection.Run(Detection.Start(programs), steps').value;
      s'.done && Detection.NoFailure(s') && IsMerged(Detection.Payload(s'.received), out')
    ensures forall i | 0 <= i < |out| :: HasTwin(out[i], out')
  {
    Detection.DeliveriesArePermutations(programs, steps, steps');
    ArrivalOrderDoesNotMatter(
      Detection.Payload(Detection.Run(Detection.Start(programs), steps).value.received),
      Detection.Payload(Detection.Run(Detection.Start(programs), steps').value.received), out, out');
  }

  /** The pinned label itself can depend on the order when pinned members disagree on it. */
  lemma PinnedLabelDependsOnOrder(a: Finding, b: Finding, c: Finding)
    requires a.confidence > b.confidence > c.confidence
    requires a.pinned && b.pinned && c.pinned && b.severity == Low && c.severity == Suppressed
    ensures MergeAll([a, b, c]).severity == Suppressed && MergeAll([a, c, b]).severity == Low
  {
    assert [a, b, c][..2] == [a, b] && [a, c, b][..2] == [a, c];
    assert [a, b][..1] == [a] && [a, c][..1] == [a];
    assert MergeAll([a, b]) == Merge(a, b) && MergeAll([a, c]) == Merge(a, c);
  }

  // ---- The severity of a merged finding -----------------------------------------------------

  ghost predicate NonePinned(m: multiset<Finding>) {
    forall g | g in m :: !g.pinned
  }

  /** Some order of arrival gives the merged finding f's severity: without pinned members f is a
      most confident one; otherwise f is pinned and, unless it is alone in that, not the one most
      confident member. */
  ghost predicate Decides(m: multiset<Finding>, f: Finding) {
    && f in m
    && if NonePinned(m) then forall g | g in m :: g.confidence <= f.confidence
       else f.pinned && (NonePinned(m - multiset{f}) || Matched(m - multiset{f}, f))
  }

  ghost predicate Matched(others: multiset<Finding>, f: Finding) {
    exists g | g in others :: g.confidence >= f.confidence
  }

  lemma MergeSeverity(a: Finding, b: Finding)
    ensures Merge(a, b).severity ==
      if b.confidence > a.confidence then if a.pinned then a.severity else b.severity
      else if b.pinned then b.severity else a.severity
  {
  }

  /** What MergedConfidence and MergedPin say, on multisets. */
  lemma MergedMembers(group: seq<Finding>)
    requires group != []
    ensures NonePinned(multiset(group)) <==> !MergeAll(group).pinned
    ensures exists g | g in group :: g.confidence == MergeAll(group).confidence
    ensures forall g | g in group :: g.confidence <= MergeAll(group).confidence
  {
    MergedConfidence(group);
    MergedPin(group);
    assert forall g :: g in multiset(group) <==> g in group;
  }

  /** In every order the severity is that of a deciding member. */
  lemma {:induction false} SomeoneDecides(group: seq<Finding>) returns (f: Finding)
    requires group != []
    ensures Decides(multiset(group), f) && f.severity == MergeAll(group).severity
  {
    var last := group[|group| - 1];
    if |group| == 1 {
      f := last;
      assert group == [last];
    } else {
      var init := group[..|group| - 1];
      assert group == init + [last];
      f := SomeoneDecides(init);
      f := DeciderAfter(init, last, f);
    }
  }

  lemma DeciderAfter(init: seq<Finding>, last: Finding, before: Finding) returns (f: Finding)
    requires init != [] && Decides(multiset(init), before) && before.severity == MergeAll(init).severity
    ensures Decides(multiset(init + [last]), f) && f.severity == Merge(MergeAll(init), last).severity
  {
    var merged := MergeAll(init);
    MergedMembers(init);
    MergeSeverity(merged, last);
    assert before in init;
    if last.confidence > merged.confidence {
      if merged.pinned {
        f := before;
        LaterWinnerKeepsDecider(init, last, f);
      } else {
        f := last;
        WinnerDecides(init, last);
      }
    } else if last.pinned {
      f := last;
      PinnedLoserDecides(init, last);
    } else {
      f := before;
      UnpinnedLoserKeepsDecider(init, last, f);
    }
  }

  lemma LaterWinnerKeepsDecider(init: seq<Finding>, last: Finding, f: Finding)
    requires Decides(multiset(init), f) && !NonePinned(multiset(init)) && last.confidence >= f.confidence
    ensures Decides(multiset(init + [last]), f)
  {
    var m := multiset(init + [last]);
    assert m == multiset(init) + multiset{last};
    assert last in m - multiset{f};
  }

  lemma WinnerDecides(init: seq<Finding>, last: Finding)
    requires NonePinned(multiset(init)) && forall g | g in init :: g.confidence <= last.confidence
    ensures Decides(multiset(init + [last]), last)
  {
    var m := multiset(init + [last]);
    assert m == multiset(init) + multiset{last};
    assert m - multiset{last} == multiset(init);
  }

  lemma PinnedLoserDecides(init: seq<Finding>, last: Finding)
    requires last.pinned && exists g | g in init :: g.confidence >= last.confidence
    ensures Decides(multiset(init + [last]), last)
  {
    var m := multiset(init + [last]);
    assert m == multiset(init) + multiset{last};
    assert m - multiset{last} == multiset(init);
    var g :| g in init && g.confidence >= last.confidence;
    assert g in m - multiset{last};
  }

  lemma UnpinnedLoserKeepsDecider(init: seq<Finding>, last: Finding, f: Finding)
    requires Decides(multiset(init), f) && !last.pinned
    requires exists g | g in init :: g.confidence >= last.confidence
    ensures Decides(multiset(init + [last]), f)
  {
    var m := multiset(init + [last]);
    assert m == multiset(init) + multiset{last};
    assert m - multiset{f} == (multiset(init) - multiset{f}) + multiset{last};
  }

  lemma TakeOut(group: seq<Finding>, f: Finding) returns (others: seq<Finding>)
    requires f in group
    ensures multiset(others) == multiset(group) - multiset{f}
    ensures multiset([f] + others) == multiset(group) && multiset(others + [f]) == multiset(group)
  {
    var i :| 0 <= i < |group| && group[i] == f;
    others := group[..i] + group[i + 1..];
    assert group == group[..i] + [f] + group[i + 1..];
  }

  /** And every deciding member decides in some order. */
  lemma DeciderHasItsOrder(group: seq<Finding>, f: Finding) returns (order: seq<Finding>)
    requires Decides(multiset(group), f)
    ensures order != [] && multiset(order) == multiset(group) && MergeAll(order).severity == f.severity
  {
    assert f in group;
    var others := TakeOut(group, f);
    if NonePinned(multiset(group)) {
      order := [f] + others;
      assert forall g | g in order :: g in multiset(order);
      FirstOfTheBestWins(order);
    } else if NonePinned(multiset(others)) {
      order := group;
      var g := SomeoneDecides(group);
      assert g == f || g in multiset(others);
    } else {
      order := others + [f];
      LastPinnedWins(others, f);
    }
  }

  lemma LastPinnedWins(others: seq<Finding>, f: Finding)
    requires f.pinned && Matched(multiset(others), f)
    ensures MergeAll(others + [f]).severity == f.severity
  {
    var g :| g in multiset(others) && g.confidence >= f.confidence;
    assert g in others;
    MergedMembers(others);
    MergeSnoc(others, f);
    MergeSeverity(MergeAll(others), f);
  }

  lemma {:induction false} FirstOfTheBestWins(group: seq<Finding>)
    requires group != [] && NonePinned(multiset(group)) && forall g | g in group :: g.confidence <= group[0].confidence
    ensures MergeAll(group).severity == group[0].severity && MergeAll(group).confidence == group[0].confidence
    ensures !MergeAll(group).pinned
  {
    if |group| > 1 {
      var init, last := group[..|group| - 1], group[|group| - 1];
      assert group == init + [last];
      assert last in multiset(group) && forall g | g in multiset(init) :: g in multiset(group);
      assert forall g | g in init :: g in group;
      FirstOfTheBestWins(init);
    } else {
      assert group[0] in multiset(group);
    }
  }

  /** The merged severity is the same for every arrival order exactly if the deciding members
      agree on it. */
  lemma LabelIsIndependentExactlyWhen(group: seq<Finding>)
    requires group != []
    ensures (forall order | multiset(order) == multiset(group) :: order != [] && MergeAll(order).severity == MergeAll(group).severity)
       <==> (forall f, g | Decides(multiset(group), f) && Decides(multiset(group), g) :: f.severity == g.severity)
  {
    var mine := SomeoneDecides(group);
    if forall f, g | Decides(multiset(group), f) && Decides(multiset(group), g) :: f.severity == g.severity {
      forall order | multiset(order) == multiset(group) ensures order != [] && MergeAll(order).severity == MergeAll(group).severity {
        assert |multiset(order)| == |order|;
        var theirs := SomeoneDecides(order);
      }
    } else {
      var f, g :| Decides(multiset(group), f) && Decides(multiset(group), g) && f.severity != g.severity;
      var a := DeciderHasItsOrder(group, f);
      var b := DeciderHasItsOrder(group, g);
    }
  }
}
