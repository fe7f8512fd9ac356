/** One clustering pass over the stored clusters of a user (internal/knowledge/clusterer.go). */
module Clusterer {
  import opened Wrappers

  import opened DensityGraph
  import opened Dbscan
  import opened Diff

  datatype Record = Record(sourceID: Uuid, embedding: Vector)

  datatype StoredCluster = StoredCluster(memberCount: nat, keywords: string, members: seq<Uuid>)

  /** The stored clusters of one user.  Every operation may fail.  Cluster rows and member rows are written
      one after the other, so a failed one may leave a cluster without members. */
  class KnowledgeStore {
    var clusters: map<Uuid, StoredCluster>

    constructor ()
      ensures clusters == map[]
    {
      clusters := map[];
    }

    /** The stored clusters in an arbitrary order. */
    method LoadClusters() returns (r: Option<seq<Cluster>>)
      ensures r.Some? ==> Lists(r.value, clusters)
    {
      var fail: bool := *;
      if fail {
        return None;
      }
      var loaded: seq<Cluster> := [];
      var todo := clusters.Keys;
      while todo != {}
        invariant todo <= clusters.Keys
        invariant forall c | c in loaded :: c.id in clusters && c.members == clusters[c.id].members
        invariant forall id | id in clusters && id !in todo :: Cluster(id, clusters[id].members) in loaded
        invariant (forall c | c in loaded :: c.id !in todo) && Identified(loaded)
        decreases todo
      {
        var id := AnyKey(todo);
        loaded := loaded + [Cluster(id, clusters[id].members)];
        todo := todo - {id};
      }
      return Some(loaded);
    }

    method SaveCluster(id: Uuid, c: StoredCluster) returns (ok: bool)
      requires id !in clusters
      modifies this
      ensures ok ==> clusters == old(clusters)[id := c]
      ensures !ok ==> clusters == old(clusters) || clusters == old(clusters)[id := c.(members := [])]
    {
      ok := *;
      if ok {
        clusters := clusters[id := c];
      } else {
        var written: bool := *;
        if written {
          clusters := clusters[id := c.(members := [])];
        }
      }
    }

    /** Replaces the members only if some are given: the old ones are deleted before the new ones are
        inserted. */
    method UpdateCluster(id: Uuid, memberCount: nat, keywords: string, members: Option<seq<Uuid>>) returns (ok: bool)
      requires id in clusters
      modifies this
      ensures ok ==> clusters == old(clusters)[id := StoredCluster(memberCount, keywords, members.GetOr(old(clusters)[id].members))]
      ensures !ok ==>
        || clusters == old(clusters)
        || (members.Some? && clusters == old(clusters)[id := StoredCluster(memberCount, keywords, old(clusters)[id].members)])
        || (members.Some? && clusters == old(clusters)[id := StoredCluster(memberCount, keywords, [])])
    {
      var before := clusters[id].members;
      var updated: bool := *;
      if !updated {
        return false;
      }
      clusters := clusters[id := StoredCluster(memberCount, keywords, before)];
      if members.None? {
        return true;
      }
      var deleted: bool := *;
      if !deleted {
        return false;
      }
      clusters := clusters[id := StoredCluster(memberCount, keywords, [])];
      var inserted: bool := *;
      if !inserted {
        return false;
      }
      clusters := clusters[id := StoredCluster(memberCount, keywords, members.value)];
      return true;
    }

    method DeleteCluster(id: Uuid) returns (ok: bool)
      modifies this
      ensures clusters == if ok then old(clusters) - {id} else old(clusters)
    {
      ok := *;
      if ok {
        clusters := clusters - {id};
      }
    }
  }

  ghost predicate Identified(loaded: seq<Cluster>) {
    forall i, j | 0 <= i < j < |loaded| :: loaded[i].id != loaded[j].id
  }

  /** `loaded` lists the clusters of `stored`, each once. */
  ghost predicate Lists(loaded: seq<Cluster>, stored: map<Uuid, StoredCluster>) {
    && Identified(loaded)
    && (forall c | c in loaded :: c.id in stored && c.members == stored[c.id].members)
    && (forall id | id in stored :: Cluster(id, stored[id].members) in loaded)
  }

  /** The sources of the points `indices`. */
  function SourcesOf(indices: seq<nat>, sourceIDs: seq<Uuid>): seq<Uuid> {
    if indices == [] then []
    else
      var idx := indices[|indices| - 1];
      SourcesOf(indices[..|indices| - 1], sourceIDs) + if idx < |sourceIDs| then [sourceIDs[idx]] else []
  }

  /** In the order of the points. */
  lemma {:induction false} SourcesInOrder(indices: seq<nat>, sourceIDs: seq<Uuid>)
    requires forall i | 0 <= i < |indices| :: indices[i] < |sourceIDs|
    ensures |SourcesOf(indices, sourceIDs)| == |indices|
    ensures forall i | 0 <= i < |indices| :: SourcesOf(indices, sourceIDs)[i] == sourceIDs[indices[i]]
  {
    if indices != [] {
      SourcesInOrder(indices[..|indices| - 1], sourceIDs);
    }
  }

  method BuildMembers(indices: seq<nat>, sourceIDs: seq<Uuid>) returns (members: seq<Uuid>)
    ensures members == SourcesOf(indices, sourceIDs)
  {
    members := [];
    for i := 0 to |indices|
      invariant members == SourcesOf(indices[..i], sourceIDs)
    {
      assert indices[..i + 1][..i] == indices[..i];
      if indices[i] >= |sourceIDs| {
        continue;
      }
      members := members + [sourceIDs[indices[i]]];
    }
    assert indices[..|indices|] == indices;
  }

  // ---- What a pass leaves behind --------------------------------------------------------------

  /** The stored cluster has these points as its members, and counts them. */
  ghost predicate Holds(c: StoredCluster, indices: seq<nat>, sourceIDs: seq<Uuid>) {
    c.members == SourcesOf(indices, sourceIDs) && c.memberCount == |indices|
  }

  /** The stored clusters are exactly the new ones: `home` gives each new cluster its own id. */
  ghost predicate Mirrors(stored: map<Uuid, StoredCluster>, clusters: map<int, seq<nat>>, sourceIDs: seq<Uuid>,
                          home: map<int, Uuid>) {
    && home.Keys == clusters.Keys
    && (forall l, m | l in home && m in home && l != m :: home[l] != home[m])
    && (forall l | l in home :: home[l] in stored && Holds(stored[home[l]], clusters[l], sourceIDs))
    && (forall id | id in stored :: exists l :: l in home && home[l] == id)
  }

  /** `stored` mirrors the clustering of `d`. */
  ghost predicate MirrorsRun(stored: map<Uuid, StoredCluster>, d: Input, sourceIDs: seq<Uuid>) {
    exists result, home :: IsClustering(d, result) && Mirrors(stored, result.clusters, sourceIDs, home)
  }

  ghost function MembersById(stored: map<Uuid, StoredCluster>): map<Uuid, (nat, seq<Uuid>)> {
    map id | id in stored :: (stored[id].memberCount, stored[id].members)
  }

  // ---- A repeated pass ----------------------------------------------------------------------------

  lemma {:induction false} SourceOfIndex(indices: seq<nat>, sourceIDs: seq<Uuid>, s: Uuid)
    ensures s in SourcesOf(indices, sourceIDs) <==> exists idx | idx in indices :: idx < |sourceIDs| && sourceIDs[idx] == s
  {
    if indices != [] {
      var front, last := indices[..|indices| - 1], indices[|indices| - 1];
      assert indices == front + [last];
      SourceOfIndex(front, sourceIDs, s);
      if exists idx | idx in indices :: idx < |sourceIDs| && sourceIDs[idx] == s {
        var idx :| idx in indices && idx < |sourceIDs| && sourceIDs[idx] == s;
        assert idx in front || idx == last;
      }
    }
  }

  /** A source that `existing` lists under a single id is owned by that id. */
  lemma {:induction false} OwnedOnce(existing: seq<Cluster>, s: Uuid, id: Uuid)
    requires forall c | c in existing && s in c.members :: c.id == id
    ensures s in Owners(existing) <==> exists c | c in existing :: s in c.members
    ensures s in Owners(existing) ==> Owners(existing)[s] == id
  {
    if existing != [] {
      var front, last := existing[..|existing| - 1], existing[|existing| - 1];
      assert existing == front + [last];
      OwnedOnce(front, s, id);
      if s in last.members {
        assert last in existing;
      } else if exists c | c in existing :: s in c.members {
        var c :| c in existing && s in c.members;
        assert c in front;
      }
    }
  }

  lemma {:induction false} SharedAllOrNone(indices: seq<nat>, sourceIDs: seq<Uuid>, owners: map<Uuid, Uuid>, home: Uuid, id: Uuid)
    requires forall idx | idx in indices :: ComesFrom(idx, sourceIDs, owners, home)
    ensures Shared(indices, sourceIDs, owners, id) == if id == home then |indices| else 0
  {
    if indices != [] {
      assert indices[|indices| - 1] in indices;
      SharedAllOrNone(indices[..|indices| - 1], sourceIDs, owners, home, id);
    }
  }

  /** Non-empty, disjoint sets of points below `n`. */
  ghost predicate Apart(clusters: map<int, seq<nat>>, n: nat) {
    && (forall l | l in clusters :: clusters[l] != [] && forall p | p in clusters[l] :: p < n)
    && (forall l, m, p | l in clusters && m in clusters && p in clusters[l] && p in clusters[m] :: l == m)
  }

  /** A store that mirrors `clusters`, loaded again as `existing`. */
  ghost predicate Repeats(stored: map<Uuid, StoredCluster>, clusters: map<int, seq<nat>>,
                          sourceIDs: seq<Uuid>, home: map<int, Uuid>, existing: seq<Cluster>) {
    && Mirrors(stored, clusters, sourceIDs, home) && Lists(existing, stored)
    && Distinct(sourceIDs) && Apart(clusters, |sourceIDs|)
  }

  /** Each point of a new cluster comes from the stored form of that cluster. */
  lemma ComesFromHome(stored: map<Uuid, StoredCluster>, clusters: map<int, seq<nat>>,
                      sourceIDs: seq<Uuid>, home: map<int, Uuid>, existing: seq<Cluster>, l: int, idx: nat)
    requires Repeats(stored, clusters, sourceIDs, home, existing)
    requires l in home && idx in clusters[l]
    ensures ComesFrom(idx, sourceIDs, Owners(existing), home[l])
  {
    var s := sourceIDs[idx];
    forall c | c in existing && s in c.members ensures c.id == home[l] {
      var m :| m in home && home[m] == c.id;
      SourceOfIndex(clusters[m], sourceIDs, s);
      var other :| other in clusters[m] && other < |sourceIDs| && sourceIDs[other] == s;
      assert other == idx;
      assert l == m;
    }
    OwnedOnce(existing, s, home[l]);
    SourceOfIndex(clusters[l], sourceIDs, s);
    assert Cluster(home[l], stored[home[l]].members) in existing;
  }

  lemma SharedWithHome(stored: map<Uuid, StoredCluster>, clusters: map<int, seq<nat>>,
                       sourceIDs: seq<Uuid>, home: map<int, Uuid>, existing: seq<Cluster>, l: int, id: Uuid)
    requires Repeats(stored, clusters, sourceIDs, home, existing) && l in home
    ensures var indices := clusters[l];
            Shared(indices, sourceIDs, Owners(existing), id) == if id == home[l] then |indices| else 0
  {
    forall idx | idx in clusters[l] ensures ComesFrom(idx, sourceIDs, Owners(existing), home[l]) {
      ComesFromHome(stored, clusters, sourceIDs, home, existing, l, idx);
    }
    SharedAllOrNone(clusters[l], sourceIDs, Owners(existing), home[l], id);
  }

  /** The only overlaps are those of the new clusters with their own stored forms. */
  lemma OnlyHomeOverlaps(stored: map<Uuid, StoredCluster>, clusters: map<int, seq<nat>>,
                         sourceIDs: seq<Uuid>, home: map<int, Uuid>, existing: seq<Cluster>, o: Overlap)
    requires Repeats(stored, clusters, sourceIDs, home, existing)
    ensures IsOverlap(o, clusters, sourceIDs, Owners(existing)) <==>
            && o.newLabel in home && o.existingID == home[o.newLabel]
            && o.overlapCount == o.newSize == |clusters[o.newLabel]|
  {
    if o.newLabel in home {
      SharedWithHome(stored, clusters, sourceIDs, home, existing, o.newLabel, o.existingID);
    }
  }

  lemma WholeIsMajority(o: Overlap)
    requires o.overlapCount == o.newSize
    ensures Majority(o)
  {
    DivideBySelf(o.newSize as real);
  }

  /** A new cluster is matched with its own stored form. */
  lemma MatchedWithHome(stored: map<Uuid, StoredCluster>, clusters: map<int, seq<nat>>,
                        sourceIDs: seq<Uuid>, home: map<int, Uuid>, existing: seq<Cluster>,
                        diff: DiffResult, overlaps: seq<Overlap>, bornLabels: seq<int>, o: Overlap)
    requires Repeats(stored, clusters, sourceIDs, home, existing)
    requires IsDiff(diff, overlaps, bornLabels, clusters, sourceIDs, existing)
    requires IsOverlap(o, clusters, sourceIDs, Owners(existing))
    ensures o in Greedy(overlaps, {}, {})
  {
    OnlyHomeOverlaps(stored, clusters, sourceIDs, home, existing, o);
    WholeIsMajority(o);
    DiffStable(diff, overlaps, bornLabels, clusters, sourceIDs, existing, o);
    GreedyMatches(overlaps, {}, {});
    var w :| w in Greedy(overlaps, {}, {}) && (w.newLabel == o.newLabel || w.existingID == o.existingID) && !Better(o, w);
    OnlyHomeOverlaps(stored, clusters, sourceIDs, home, existing, w);
  }

  /** A pass over the same records as the pass before finds nothing born and nothing dead, and
      matches every cluster with its own stored form. */
  lemma RepeatedPass(stored: map<Uuid, StoredCluster>, clusters: map<int, seq<nat>>,
                     sourceIDs: seq<Uuid>, home: map<int, Uuid>, existing: seq<Cluster>,
                     diff: DiffResult, overlaps: seq<Overlap>, bornLabels: seq<int>)
    requires Repeats(stored, clusters, sourceIDs, home, existing)
    requires IsDiff(diff, overlaps, bornLabels, clusters, sourceIDs, existing)
    ensures diff.born == [] && diff.died == []
    ensures forall o | o in Greedy(overlaps, {}, {}) :: o.newLabel in home && o.existingID == home[o.newLabel]
  {
    assert |bornLabels| > 0 ==> bornLabels[0] in bornLabels;
    assert |diff.died| > 0 ==> diff.died[0] in diff.died;
    GreedyMatches(overlaps, {}, {});
    forall o | o in Greedy(overlaps, {}, {}) ensures o.newLabel in home && o.existingID == home[o.newLabel] {
      OnlyHomeOverlaps(stored, clusters, sourceIDs, home, existing, o);
    }
    DiffPartitions(diff, overlaps, bornLabels, clusters, sourceIDs, existing);
    forall l | l in home ensures l !in bornLabels && home[l] !in diff.died {
      var o := Overlap(l, home[l], |clusters[l]|, |clusters[l]|);
      OnlyHomeOverlaps(stored, clusters, sourceIDs, home, existing, o);
      MatchedWithHome(stored, clusters, sourceIDs, home, existing, diff, overlaps, bornLabels, o);
    }
  }

  // ---- Applying a diff ------------------------------------------------------------------------------

  ghost predicate FreshIDs(ids: seq<Uuid>, stored: map<Uuid, StoredCluster>) {
    Distinct(ids) && forall id | id in ids :: id !in stored
  }

  lemma {:induction false} UnusedID(used: set<Uuid>) returns (bound: nat)
    ensures forall id | id in used :: id < bound
  {
    if used == {} {
      bound := 0;
    } else {
      var id :| id in used;
      var rest := UnusedID(used - {id});
      bound := if id < rest then rest else id + 1;
      assert used == (used - {id}) + {id};
    }
  }

  /** A random identifier; it is assumed not to collide. */
  method NewID(used: set<Uuid>) returns (id: Uuid)
    ensures id !in used
  {
    ghost var bound := UnusedID(used);
    assert bound !in used;
    id :| id !in used;
  }

  method ApplyBirths(store: KnowledgeStore, born: seq<ClusterBirth>, sourceIDs: seq<Uuid>)
    returns (ok: bool, ghost ids: seq<Uuid>)
    modifies store
    ensures ok ==>
      && |ids| == |born| && FreshIDs(ids, old(store.clusters))
      && store.clusters.Keys == old(store.clusters).Keys + (set id | id in ids)
      && (forall i | 0 <= i < |ids| :: Holds(store.clusters[ids[i]], born[i].members, sourceIDs))
      && (forall id | id in old(store.clusters) :: store.clusters[id] == old(store.clusters)[id])
  {
    ids := [];
    for i := 0 to |born|
      invariant |ids| == i && FreshIDs(ids, old(store.clusters))
      invariant store.clusters.Keys == old(store.clusters).Keys + (set id | id in ids)
      invariant forall j | 0 <= j < i :: Holds(store.clusters[ids[j]], born[j].members, sourceIDs)
      invariant forall id | id in old(store.clusters) :: store.clusters[id] == old(store.clusters)[id]
    {
      var clusterID := NewID(store.clusters.Keys);
      var members := BuildMembers(born[i].members, sourceIDs);
      ok := store.SaveCluster(clusterID, StoredCluster(|born[i].members|, "", members));
      if !ok {
        return;
      }
      ids := ids + [clusterID];
    }
    ok := true;
  }

  ghost predicate DistinctUpdates(updated: seq<ClusterUpdate>) {
    forall i, j | 0 <= i < j < |updated| :: updated[i].clusterID != updated[j].clusterID
  }

  method ApplyUpdates(store: KnowledgeStore, updated: seq<ClusterUpdate>, sourceIDs: seq<Uuid>) returns (ok: bool)
    requires DistinctUpdates(updated) && forall u | u in updated :: u.clusterID in store.clusters
    modifies store
    ensures store.clusters.Keys == old(store.clusters).Keys
    ensures forall id | id in store.clusters && (forall u | u in updated :: u.clusterID != id) ::
              store.clusters[id] == old(store.clusters)[id]
    ensures ok ==> forall u | u in updated :: Holds(store.clusters[u.clusterID], u.newMembers, sourceIDs)
  {
    for i := 0 to |updated|
      invariant store.clusters.Keys == old(store.clusters).Keys
      invariant forall j | 0 <= j < i ::
        Holds(store.clusters[updated[j].clusterID], updated[j].newMembers, sourceIDs)
      invariant forall id | id in store.clusters && (forall u | u in updated :: u.clusterID != id) ::
        store.clusters[id] == old(store.clusters)[id]
    {
      var u := updated[i];
      assert u in updated;
      var members := BuildMembers(u.newMembers, sourceIDs);
      ok := store.UpdateCluster(u.clusterID, |u.newMembers|, "", Some(members));
      if !ok {
        return;
      }
    }
    ok := true;
  }

  method ApplyDeaths(store: KnowledgeStore, died: seq<Uuid>) returns (ok: bool)
    modifies store
    ensures ok ==> store.clusters == old(store.clusters) - (set id | id in died)
  {
    for i := 0 to |died|
      invariant store.clusters == old(store.clusters) - (set id | id in died[..i])
    {
      assert died[..i + 1] == died[..i] + [died[i]];
      ok := store.DeleteCluster(died[i]);
      if !ok {
        return;
      }
    }
    assert died[..|died|] == died;
    ok := true;
  }

  /** Stores new keywords without touching the members; a failure stops it early. */
  method RefreshKeywords(store: KnowledgeStore)
    modifies store
    ensures MembersById(store.clusters) == MembersById(old(store.clusters))
  {
    var loaded := store.LoadClusters();
    if loaded.None? {
      return;
    }
    for i := 0 to |loaded.value|
      invariant MembersById(store.clusters) == MembersById(old(store.clusters))
    {
      var id := loaded.value[i].id;
      assert id in MembersById(store.clusters);
      var keywords: string := *;
      var ok := store.UpdateCluster(id, store.clusters[id].memberCount, keywords, None);
      if !ok {
        return;
      }
    }
  }

  // ---- The pass -----------------------------------------------------------------------------------

  datatype Stats = Stats(born: nat, updated: nat, died: nat)

  function SourceIDs(records: seq<Record>): (r: seq<Uuid>) {
    seq(|records|, i requires 0 <= i < |records| => records[i].sourceID)
  }

  function InputOf(records: seq<Record>, within: (Vector, Vector) -> bool, minPoints: int): Input {
    Input(seq(|records|, i requires 0 <= i < |records| => records[i].embedding), within, minPoints)
  }

  /** What one pass knows once births, updates and deaths are applied: the diff of `clusters` against
      the stored clusters `before`, the new ids, and the stored clusters `after`. */
  datatype Pass = Pass(before: map<Uuid, StoredCluster>, clusters: map<int, seq<nat>>, sourceIDs: seq<Uuid>,
                       diff: DiffResult, overlaps: seq<Overlap>, bornLabels: seq<int>,
                       ids: seq<Uuid>, after: map<Uuid, StoredCluster>)

  ghost predicate Diffed(p: Pass) {
    exists existing ::
      Lists(existing, p.before) && IsDiff(p.diff, p.overlaps, p.bornLabels, p.clusters, p.sourceIDs, existing)
  }

  ghost predicate Applied(p: Pass) {
    && |p.ids| == |p.diff.born| && FreshIDs(p.ids, p.before)
    && (forall id :: id in p.after <==> (id in p.before || id in p.ids) && id !in p.diff.died)
    && (forall i | 0 <= i < |p.ids| && p.ids[i] in p.after ::
          Holds(p.after[p.ids[i]], p.diff.born[i].members, p.sourceIDs))
    && (forall u | u in p.diff.updated && u.clusterID in p.after ::
          Holds(p.after[u.clusterID], u.newMembers, p.sourceIDs))
  }

  ghost function Picked(p: Pass): seq<Overlap> {
    Greedy(p.overlaps, {}, {})
  }

  ghost predicate UpdatedAs(p: Pass, l: int, id: Uuid) {
    exists o | o in Picked(p) :: o.newLabel == l && o.existingID == id
  }

  ghost predicate BornAs(p: Pass, l: int, id: Uuid) {
    exists i :: 0 <= i < |p.bornLabels| && i < |p.ids| && p.bornLabels[i] == l && p.ids[i] == id
  }

  /** The new cluster `l` is stored as `id`. */
  ghost predicate StoredAs(p: Pass, l: int, id: Uuid) {
    UpdatedAs(p, l, id) || BornAs(p, l, id)
  }

  /** The diff in terms of the stored ids. */
  lemma StoredPartition(p: Pass)
    requires Diffed(p)
    ensures IsMatching(Picked(p)) && Updates(p.diff.updated, Picked(p), p.clusters)
    ensures Births(p.diff.born, p.bornLabels, p.clusters)
    ensures forall id :: id in p.before <==> id in ExistingIDs(Picked(p)) || id in p.diff.died
    ensures forall id :: !(id in ExistingIDs(Picked(p)) && id in p.diff.died)
    ensures forall l :: l in p.clusters <==> l in NewLabels(Picked(p)) || l in p.bornLabels
    ensures forall l :: !(l in NewLabels(Picked(p)) && l in p.bornLabels)
  {
    var existing :| Lists(existing, p.before) && IsDiff(p.diff, p.overlaps, p.bornLabels, p.clusters, p.sourceIDs, existing);
    DiffPartitions(p.diff, p.overlaps, p.bornLabels, p.clusters, p.sourceIDs, existing);
    forall id ensures id in p.before <==> exists c: Cluster | c in existing :: c.id == id {
      if id in p.before {
        assert Cluster(id, p.before[id].members) in existing;
      }
    }
  }

  lemma StoredSomewhere(p: Pass, l: int)
    requires Diffed(p) && Applied(p) && l in p.clusters
    ensures exists id :: StoredAs(p, l, id)
  {
    StoredPartition(p);
    if l in NewLabels(Picked(p)) {
      var o :| o in Picked(p) && o.newLabel == l;
      assert UpdatedAs(p, l, o.existingID);
      assert StoredAs(p, l, o.existingID);
    } else {
      var i :| 0 <= i < |p.bornLabels| && p.bornLabels[i] == l;
      assert BornAs(p, l, p.ids[i]);
      assert StoredAs(p, l, p.ids[i]);
    }
  }

  lemma StoredMembers(p: Pass, l: int, id: Uuid)
    requires Diffed(p) && Applied(p) && StoredAs(p, l, id)
    ensures l in p.clusters && id in p.after && Holds(p.after[id], p.clusters[l], p.sourceIDs)
  {
    StoredPartition(p);
    if UpdatedAs(p, l, id) {
      var i :| 0 <= i < |Picked(p)| && Picked(p)[i].newLabel == l && Picked(p)[i].existingID == id;
      assert Picked(p)[i] in Picked(p);
      assert id in ExistingIDs(Picked(p));
      assert p.diff.updated[i] in p.diff.updated;
    } else {
      var i :| 0 <= i < |p.bornLabels| && p.bornLabels[i] == l && p.ids[i] == id;
      assert p.ids[i] in p.ids;
    }
  }

  /** Updates are one to one. */
  lemma UpdatedOnce(p: Pass, l: int, id: Uuid, m: int, other: Uuid)
    requires UpdatedAs(p, l, id) && UpdatedAs(p, m, other)
    ensures l == m <==> id == other
  {
    GreedyMatches(p.overlaps, {}, {});
    var picked := Picked(p);
    var i :| 0 <= i < |picked| && picked[i].newLabel == l && picked[i].existingID == id;
    var j :| 0 <= j < |picked| && picked[j].newLabel == m && picked[j].existingID == other;
    assert i < j || i == j || j < i;
  }

  /** Births are one to one. */
  lemma BornOnce(p: Pass, l: int, id: Uuid, m: int, other: Uuid)
    requires Diffed(p) && Applied(p) && BornAs(p, l, id) && BornAs(p, m, other)
    ensures l == m <==> id == other
  {
    var existing :| Lists(existing, p.before) && IsDiff(p.diff, p.overlaps, p.bornLabels, p.clusters, p.sourceIDs, existing);
    var i :| 0 <= i < |p.bornLabels| && i < |p.ids| && p.bornLabels[i] == l && p.ids[i] == id;
    var j :| 0 <= j < |p.bornLabels| && j < |p.ids| && p.bornLabels[j] == m && p.ids[j] == other;
    assert i < j || i == j || j < i;
  }

  /** Nothing is both updated and born. */
  lemma UpdatedOrBorn(p: Pass, l: int, id: Uuid, m: int, other: Uuid)
    requires Diffed(p) && Applied(p) && UpdatedAs(p, l, id) && BornAs(p, m, other)
    ensures l != m && id != other
  {
    StoredPartition(p);
    assert l in NewLabels(Picked(p)) && id in ExistingIDs(Picked(p));
    assert m in p.bornLabels && other in p.ids;
  }

  lemma StoredOnce(p: Pass, l: int, id: Uuid, m: int, other: Uuid)
    requires Diffed(p) && Applied(p) && StoredAs(p, l, id) && StoredAs(p, m, other)
    ensures l == m <==> id == other
  {
    if UpdatedAs(p, l, id) {
      if UpdatedAs(p, m, other) {
        UpdatedOnce(p, l, id, m, other);
      } else {
        UpdatedOrBorn(p, l, id, m, other);
      }
    } else if UpdatedAs(p, m, other) {
      UpdatedOrBorn(p, m, other, l, id);
    } else {
      BornOnce(p, l, id, m, other);
    }
  }

  lemma StoredCovers(p: Pass, id: Uuid)
    requires Diffed(p) && Applied(p) && id in p.after
    ensures exists l :: StoredAs(p, l, id)
  {
    StoredPartition(p);
    if id in p.before {
      var o :| o in Picked(p) && o.existingID == id;
      assert UpdatedAs(p, o.newLabel, id);
      assert StoredAs(p, o.newLabel, id);
    } else {
      var i :| 0 <= i < |p.ids| && p.ids[i] == id;
      assert BornAs(p, p.bornLabels[i], id);
      assert StoredAs(p, p.bornLabels[i], id);
    }
  }

  ghost function HomeFor(p: Pass, l: int): (id: Uuid)
    requires Diffed(p) && Applied(p) && l in p.clusters
    ensures StoredAs(p, l, id)
  {
    StoredSomewhere(p, l);
    var id :| StoredAs(p, l, id); id
  }

  lemma HomeOnce(p: Pass, home: map<int, Uuid>)
    requires Diffed(p) && Applied(p) && forall l | l in home :: StoredAs(p, l, home[l])
    ensures forall l, m | l in home && m in home && l != m :: home[l] != home[m]
    ensures forall l, id | l in home && StoredAs(p, l, id) :: id == home[l]
  {
    hide Diffed, Applied, StoredAs;
    forall l, m, id | l in home && m in home && StoredAs(p, m, id) ensures l == m <==> home[l] == id {
      StoredOnce(p, l, home[l], m, id);
    }
  }

  lemma HomeAll(p: Pass, home: map<int, Uuid>)
    requires Diffed(p) && Applied(p) && home.Keys == p.clusters.Keys && forall l | l in home :: StoredAs(p, l, home[l])
    ensures forall id | id in p.after :: exists l :: l in home && home[l] == id
  {
    HomeOnce(p, home);
    hide Diffed, Applied, StoredAs;
    forall id | id in p.after ensures exists l :: l in home && home[l] == id {
      StoredCovers(p, id);
      var l :| StoredAs(p, l, id);
      StoredMembers(p, l, id);
    }
  }

  lemma HomeMembers(p: Pass, home: map<int, Uuid>)
    requires Diffed(p) && Applied(p) && forall l | l in home :: StoredAs(p, l, home[l])
    ensures forall l | l in home ::
              l in p.clusters && home[l] in p.after && Holds(p.after[home[l]], p.clusters[l], p.sourceIDs)
  {
    hide Diffed, Applied, StoredAs, Holds;
    forall l | l in home
      ensures l in p.clusters && home[l] in p.after && Holds(p.after[home[l]], p.clusters[l], p.sourceIDs)
    {
      StoredMembers(p, l, home[l]);
    }
  }

  ghost function Homes(p: Pass): (home: map<int, Uuid>)
    requires Diffed(p) && Applied(p)
    ensures home.Keys == p.clusters.Keys && forall l | l in home :: StoredAs(p, l, home[l])
  {
    map l | l in p.clusters :: HomeFor(p, l)
  }

  /** Applying a diff makes the store mirror the new clusters, whatever it held before. */
  lemma AppliedMirrors(p: Pass) returns (home: map<int, Uuid>)
    requires Diffed(p) && Applied(p)
    ensures Mirrors(p.after, p.clusters, p.sourceIDs, home)
  {
    home := Homes(p);
    hide Diffed, Applied, StoredAs, Holds;
    HomeOnce(p, home);
    HomeAll(p, home);
    HomeMembers(p, home);
  }

  lemma RepeatedDiff(p: Pass, d: Input, result: ClusterResult) returns (home: map<int, Uuid>)
    requires Symmetric(d) && IsClustering(d, result)
    requires Distinct(p.sourceIDs) && |p.sourceIDs| == |d.embeddings| && p.clusters == result.clusters
    requires MirrorsRun(p.before, d, p.sourceIDs) && Diffed(p)
    ensures p.diff.born == [] && p.diff.died == [] && Mirrors(p.before, p.clusters, p.sourceIDs, home)
    ensures forall o | o in Greedy(p.overlaps, {}, {}) :: o.newLabel in home && o.existingID == home[o.newLabel]
  {
    ghost var result';
    result', home :| IsClustering(d, result') && Mirrors(p.before, result'.clusters, p.sourceIDs, home);
    ResultUnique(d, result, result');
    var existing :| Lists(existing, p.before) && IsDiff(p.diff, p.overlaps, p.bornLabels, p.clusters, p.sourceIDs, existing);
    ResultMeaning(d, result);
    RepeatedPass(p.before, p.clusters, p.sourceIDs, home, existing, p.diff, p.overlaps, p.bornLabels);
  }

  /** After a pass over the records the store already mirrored, every id has the members it had. */
  lemma RepeatedPassKeeps(p: Pass, home: map<int, Uuid>)
    requires Diffed(p) && Applied(p) && p.diff.born == [] && p.diff.died == []
    requires Mirrors(p.before, p.clusters, p.sourceIDs, home)
    requires forall o | o in Greedy(p.overlaps, {}, {}) :: o.newLabel in home && o.existingID == home[o.newLabel]
    ensures MembersById(p.after) == MembersById(p.before)
  {
    assert p.ids == [];
    assert forall id :: id in p.after <==> id in p.before;
    hide Diffed, Applied, Greedy, Holds;
    forall id | id in p.before
      ensures (p.after[id].memberCount, p.after[id].members) == (p.before[id].memberCount, p.before[id].members)
    {
      var l :| l in home && home[l] == id;
      KeptHome(p, home, l);
      SameHolds(p.after[id], p.before[id], p.clusters[l], p.sourceIDs);
    }
  }

  lemma SameHolds(c: StoredCluster, d: StoredCluster, indices: seq<nat>, sourceIDs: seq<Uuid>)
    requires Holds(c, indices, sourceIDs) && Holds(d, indices, sourceIDs)
    ensures c.memberCount == d.memberCount && c.members == d.members
  {
  }

  lemma KeptHome(p: Pass, home: map<int, Uuid>, l: int)
    requires Diffed(p) && Applied(p) && p.diff.born == [] && l in home && l in p.clusters
    requires forall o | o in Greedy(p.overlaps, {}, {}) :: o.newLabel in home && o.existingID == home[o.newLabel]
    ensures home[l] in p.after && Holds(p.after[home[l]], p.clusters[l], p.sourceIDs)
  {
    assert p.ids == [];
    hide Diffed, Applied, Greedy, Holds;
    StoredSomewhere(p, l);
    var id :| StoredAs(p, l, id);
    StoredMembers(p, l, id);
  }

  /** Applies `diff` to the store; a failed store operation ends the pass early. */
  method ApplyDiff(store: KnowledgeStore, diff: DiffResult, sourceIDs: seq<Uuid>, ghost overlaps: seq<Overlap>,
                   ghost bornLabels: seq<int>, ghost clusters: map<int, seq<nat>>)
    returns (ok: bool, ghost p: Pass)
    requires Diffed(Pass(store.clusters, clusters, sourceIDs, diff, overlaps, bornLabels, [], map[]))
    modifies store
    ensures ok ==> p == Pass(old(store.clusters), clusters, sourceIDs, diff, overlaps, bornLabels, p.ids, store.clusters)
    ensures ok ==> Diffed(p) && Applied(p)
  {
    ghost var before := store.clusters;
    p := Pass(before, clusters, sourceIDs, diff, overlaps, bornLabels, [], map[]);
    StoredPartition(p);
    ghost var ids;
    ok, ids := ApplyBirths(store, diff.born, sourceIDs);
    if !ok {
      return;
    }
    ghost var afterBirths := store.clusters;
    UpdatesDistinct(p);
    forall u | u in diff.updated ensures u.clusterID in before {
      var i :| 0 <= i < |diff.updated| && diff.updated[i] == u;
      assert Picked(p)[i] in Picked(p);
      assert u.clusterID in ExistingIDs(Picked(p));
    }
    ok := ApplyUpdates(store, diff.updated, sourceIDs);
    if !ok {
      return;
    }
    ok := ApplyDeaths(store, diff.died);
    if !ok {
      return;
    }
    p := Pass(before, clusters, sourceIDs, diff, overlaps, bornLabels, ids, store.clusters);
    forall i | 0 <= i < |ids| && ids[i] in store.clusters
      ensures Holds(store.clusters[ids[i]], diff.born[i].members, sourceIDs)
    {
      assert ids[i] in ids;
      assert forall u | u in diff.updated :: u.clusterID != ids[i];
    }
  }

  lemma UpdatesDistinct(p: Pass)
    requires Diffed(p)
    ensures DistinctUpdates(p.diff.updated)
  {
    StoredPartition(p);
  }

  method ClusterUser(store: KnowledgeStore, records: seq<Record>, within: (Vector, Vector) -> bool, minPoints: int)
    returns (stats: Option<Stats>)
    requires Symmetric(InputOf(records, within, minPoints))
    modifies store
    ensures records == [] ==> store.clusters == old(store.clusters) && stats == Some(Stats(0, 0, 0))
    ensures stats.Some? && records != [] ==>
      && stats.value.born == |store.clusters.Keys - old(store.clusters).Keys|
      && stats.value.updated == |store.clusters.Keys * old(store.clusters).Keys|
      && stats.value.died == |old(store.clusters).Keys - store.clusters.Keys|
    ensures stats.Some? && records != [] ==>
      MirrorsRun(store.clusters, InputOf(records, within, minPoints), SourceIDs(records))
    ensures stats.Some? && records != [] && Distinct(SourceIDs(records))
            && old(MirrorsRun(store.clusters, InputOf(records, within, minPoints), SourceIDs(records))) ==>
      && stats.value.born == 0 && stats.value.died == 0
      && MembersById(store.clusters) == old(MembersById(store.clusters))
  {
    if records == [] {
      return Some(Stats(0, 0, 0));
    }
    var d, sourceIDs := InputOf(records, within, minPoints), SourceIDs(records);
    var result := RunDBSCAN(d);
    var existing := store.LoadClusters();
    if existing.None? {
      return None;
    }
    var diff;
    ghost var overlaps, bornLabels;
    diff, overlaps, bornLabels := DiffClusters(result, sourceIDs, existing.value);
    assert IsDiff(diff, overlaps, bornLabels, result.clusters, sourceIDs, existing.value);
    var ok;
    ghost var p;
    ok, p := ApplyDiff(store, diff, sourceIDs, overlaps, bornLabels, result.clusters);
    if !ok {
      return None;
    }
    PassCounted(p);
    if |diff.born| > 0 || |diff.updated| > 0 {
      RefreshKeywords(store);
      SameKeys(p.after, store.clusters);
    }
    FinishPass(p, store.clusters, d, result);
    stats := Some(Stats(|diff.born|, |diff.updated|, |diff.died|));
  }

  lemma SameKeys(stored: map<Uuid, StoredCluster>, after: map<Uuid, StoredCluster>)
    requires MembersById(after) == MembersById(stored)
    ensures after.Keys == stored.Keys
  {
    assert MembersById(after).Keys == after.Keys && MembersById(stored).Keys == stored.Keys;
  }

  lemma MirrorsByMembers(stored: map<Uuid, StoredCluster>, after: map<Uuid, StoredCluster>,
                         clusters: map<int, seq<nat>>, sourceIDs: seq<Uuid>, home: map<int, Uuid>)
    requires Mirrors(stored, clusters, sourceIDs, home) && MembersById(after) == MembersById(stored)
    ensures Mirrors(after, clusters, sourceIDs, home)
  {
    assert forall id :: id in stored <==> id in MembersById(stored);
    assert forall id :: id in after <==> id in MembersById(after);
    forall id | id in after ensures after[id].members == stored[id].members && after[id].memberCount == stored[id].memberCount {
      assert MembersById(after)[id] == MembersById(stored)[id];
    }
  }

  lemma {:induction false} UnmatchedOnce(existing: seq<Cluster>, matched: set<Uuid>)
    requires Identified(existing)
    ensures Distinct(Unmatched(existing, matched))
  {
    if existing != [] {
      var front, last := existing[..|existing| - 1], existing[|existing| - 1];
      UnmatchedOnce(front, matched);
      UnmatchedIDs(front, matched);
    }
  }

  lemma {:induction false} PickedSize(picked: seq<Overlap>)
    requires IsMatching(picked)
    ensures |ExistingIDs(picked)| == |picked|
  {
    if picked != [] {
      var front, last := picked[..|picked| - 1], picked[|picked| - 1];
      PickedSize(front);
      assert picked == front + [last];
      PickNext(front, last);
      assert last.existingID !in ExistingIDs(front);
    }
  }

  /** The counters of a pass that goes through. */
  ghost predicate Counted(stats: Stats, before: set<Uuid>, after: set<Uuid>) {
    stats.born == |after - before| && stats.updated == |after * before| && stats.died == |before - after|
  }

  lemma KeysMoved(before: set<Uuid>, after: set<Uuid>, born: set<Uuid>, died: set<Uuid>, kept: set<Uuid>)
    requires forall id :: id in after <==> (id in before || id in born) && id !in died
    requires forall id | id in born :: id !in before
    requires forall id :: id in before <==> id in kept || id in died
    requires forall id :: !(id in kept && id in died)
    ensures after - before == born && after * before == kept && before - after == died
  {
  }

  lemma PassCounted(p: Pass)
    requires Diffed(p) && Applied(p)
    ensures Counted(Stats(|p.diff.born|, |p.diff.updated|, |p.diff.died|), p.before.Keys, p.after.Keys)
  {
    assert |p.ids| == |p.diff.born| && FreshIDs(p.ids, p.before)
           && forall id :: id in p.after <==> (id in p.before || id in p.ids) && id !in p.diff.died;
    DiedOnce(p);
    hide Diffed, Applied, Greedy, ExistingIDs, IsMatching, Births;
    StoredPartition(p);
    PickedSize(Picked(p));
    DistinctSize(p.diff.died);
    DistinctSize(p.ids);
    KeysMoved(p.before.Keys, p.after.Keys, (set id | id in p.ids), (set id | id in p.diff.died), ExistingIDs(Picked(p)));
  }

  lemma DiedOnce(p: Pass)
    requires Diffed(p)
    ensures Distinct(p.diff.died)
  {
    var existing :| Lists(existing, p.before) && IsDiff(p.diff, p.overlaps, p.bornLabels, p.clusters, p.sourceIDs, existing);
    UnmatchedOnce(existing, ExistingIDs(Picked(p)));
  }

  /** A completed pass, after the keywords were refreshed. */
  lemma FinishPass(p: Pass, after: map<Uuid, StoredCluster>, d: Input, result: ClusterResult)
    requires Diffed(p) && Applied(p) && MembersById(after) == MembersById(p.after)
    requires Symmetric(d) && IsClustering(d, result)
    requires p.clusters == result.clusters && |p.sourceIDs| == |d.embeddings|
    ensures MirrorsRun(after, d, p.sourceIDs)
    ensures Distinct(p.sourceIDs) && MirrorsRun(p.before, d, p.sourceIDs) ==>
      p.diff.born == [] && p.diff.died == [] && MembersById(after) == MembersById(p.before)
  {
    hide Mirrors, Diffed, Applied, IsClustering, Symmetric, Distinct;
    var home := AppliedMirrors(p);
    MirrorsByMembers(p.after, after, p.clusters, p.sourceIDs, home);
    if Distinct(p.sourceIDs) && MirrorsRun(p.before, d, p.sourceIDs) {
      var home' := RepeatedDiff(p, d, result);
      RepeatedPassKeeps(p, home');
    }
  }
}
