/** Matching a new clustering against the stored clusters (internal/knowledge/diff.go).

    Go's map iteration order is arbitrary; loops over a map pick an arbitrary remaining key, so what
    is proved holds for every order.  Ratios are exact reals. */
module Diff {
  import opened Dbscan

  type Uuid = nat

  datatype Cluster = Cluster(id: Uuid, members: seq<Uuid>)

  datatype ClusterUpdate = ClusterUpdate(clusterID: Uuid, newMembers: seq<nat>, overlapRatio: real)

  datatype ClusterBirth = ClusterBirth(members: seq<nat>)

  datatype DiffResult = DiffResult(updated: seq<ClusterUpdate>, born: seq<ClusterBirth>, died: seq<Uuid>)

  /** How many members of a new cluster come from an existing one. */
  datatype ClusterOverlap = Overlap(newLabel: int, existingID: Uuid, overlapCount: nat, newSize: nat)
  type Overlap = o: ClusterOverlap | o.newSize > 0 witness Overlap(0, 0, 0, 1)

  function Ratio(o: Overlap): real {
    o.overlapCount as real / o.newSize as real
  }

  lemma DivideBySelf(x: real)
    requires x > 0.0
    ensures x / x == 1.0
  {
  }

  /** `o` is a strictly better match than `p`. */
  predicate Better(o: Overlap, p: Overlap) {
    Ratio(o) > Ratio(p) || (Ratio(o) == Ratio(p) && o.overlapCount > p.overlapCount)
  }

  predicate Majority(o: Overlap) {
    Ratio(o) >= 0.5
  }

  ghost predicate Ordered(s: seq<Overlap>) {
    forall i, j | 0 <= i < j < |s| :: !Better(s[j], s[i])
  }

  // ---- Overlaps ---------------------------------------------------------------------------

  /** The existing cluster each source belongs to; a later cluster overrides an earlier one. */
  function Owners(existing: seq<Cluster>): map<Uuid, Uuid> {
    if existing == [] then map[]
    else
      var last := existing[|existing| - 1];
      Owners(existing[..|existing| - 1]) + map s | s in last.members :: last.id
  }

  /** The existing cluster that point `idx` comes from, if any. */
  predicate ComesFrom(idx: nat, sourceIDs: seq<Uuid>, owners: map<Uuid, Uuid>, id: Uuid) {
    idx < |sourceIDs| && sourceIDs[idx] in owners && owners[sourceIDs[idx]] == id
  }

  /** The number of `indices` that come from the existing cluster `id`. */
  function Shared(indices: seq<nat>, sourceIDs: seq<Uuid>, owners: map<Uuid, Uuid>, id: Uuid): (r: nat)
    ensures r <= |indices|
  {
    if indices == [] then 0
    else
      Shared(indices[..|indices| - 1], sourceIDs, owners, id)
      + if ComesFrom(indices[|indices| - 1], sourceIDs, owners, id) then 1 else 0
  }

  ghost predicate CountsShared(indices: seq<nat>, sourceIDs: seq<Uuid>, owners: map<Uuid, Uuid>, counts: map<Uuid, nat>) {
    forall id :: (id in counts <==> Shared(indices, sourceIDs, owners, id) > 0)
              && (id in counts ==> counts[id] == Shared(indices, sourceIDs, owners, id))
  }

  /** `o` is the overlap of its two clusters. */
  ghost predicate IsOverlap(o: Overlap, clusters: map<int, seq<nat>>, sourceIDs: seq<Uuid>, owners: map<Uuid, Uuid>) {
    && o.newLabel in clusters
    && o.newSize == |clusters[o.newLabel]|
    && o.overlapCount == Shared(clusters[o.newLabel], sourceIDs, owners, o.existingID)
    && o.overlapCount > 0
  }

  /** `overlaps` lists all the overlaps of the new clusters `labels`, in some order. */
  ghost predicate ListsOverlaps(overlaps: seq<Overlap>, labels: set<int>, clusters: map<int, seq<nat>>,
                                sourceIDs: seq<Uuid>, owners: map<Uuid, Uuid>) {
    forall o: Overlap :: o in overlaps <==> o.newLabel in labels && IsOverlap(o, clusters, sourceIDs, owners)
  }

  method CountMembers(indices: seq<nat>, sourceIDs: seq<Uuid>, owners: map<Uuid, Uuid>) returns (counts: map<Uuid, nat>)
    ensures CountsShared(indices, sourceIDs, owners, counts)
  {
    counts := map[];
    for i := 0 to |indices|
      invariant CountsShared(indices[..i], sourceIDs, owners, counts)
    {
      var idx := indices[i];
      ghost var front := indices[..i + 1];
      assert front[..|front| - 1] == indices[..i];
      if idx < |sourceIDs| {
        if sourceIDs[idx] in owners {
          var id := owners[sourceIDs[idx]];
          counts := counts[id := (if id in counts then counts[id] else 0) + 1];
        }
      }
    }
    assert indices[..|indices|] == indices;
  }

  method AddMembers(owners: map<Uuid, Uuid>, c: Cluster) returns (r: map<Uuid, Uuid>)
    ensures r == owners + map s | s in c.members :: c.id
  {
    r := owners;
    for j := 0 to |c.members|
      invariant r == owners + map s | s in c.members[..j] :: c.id
    {
      assert c.members[..j + 1] == c.members[..j] + [c.members[j]];
      r := r[c.members[j] := c.id];
    }
    assert c.members[..|c.members|] == c.members;
  }

  method BuildOwners(existing: seq<Cluster>) returns (owners: map<Uuid, Uuid>)
    ensures owners == Owners(existing)
  {
    owners := map[];
    for i := 0 to |existing|
      invariant owners == Owners(existing[..i])
    {
      owners := AddMembers(owners, existing[i]);
      assert existing[..i + 1][..i] == existing[..i];
    }
    assert existing[..|existing|] == existing;
  }

  /** The next key of a loop over a map. */
  method AnyKey<K(==)>(keys: set<K>) returns (k: K)
    requires keys != {}
    ensures k in keys
  {
    k :| k in keys;
  }

  method CollectOverlaps(clusters: map<int, seq<nat>>, sourceIDs: seq<Uuid>, owners: map<Uuid, Uuid>)
    returns (overlaps: seq<Overlap>)
    ensures ListsOverlaps(overlaps, clusters.Keys, clusters, sourceIDs, owners)
  {
    overlaps := [];
    var todo := clusters.Keys;
    while todo != {}
      invariant todo <= clusters.Keys
      invariant ListsOverlaps(overlaps, clusters.Keys - todo, clusters, sourceIDs, owners)
      decreases todo
    {
      var l := AnyKey(todo);
      var counts := CountMembers(clusters[l], sourceIDs, owners);
      ghost var before := overlaps;
      var ids := counts.Keys;
      while ids != {}
        invariant ids <= counts.Keys
        invariant forall o: Overlap ::
                    o in overlaps <==>
                    (o in before || (o.newLabel == l && o.existingID !in ids && IsOverlap(o, clusters, sourceIDs, owners)))
        decreases ids
      {
        var id := AnyKey(ids);
        overlaps := overlaps + [Overlap(l, id, counts[id], |clusters[l]|)];
        ids := ids - {id};
      }
      todo := todo - {l};
    }
  }

  // ---- Sorting in place -------------------------------------------------------------------

  lemma BetterIsStrict(o: Overlap, p: Overlap)
    requires Better(o, p)
    ensures !Better(p, o)
  {
  }

  lemma NotBetterTrans(o: Overlap, p: Overlap, q: Overlap)
    requires !Better(o, p) && !Better(p, q)
    ensures !Better(o, q)
  {
  }

  /** The pairs of the first `n` overlaps are in order, apart from those that end at `j`. */
  ghost predicate OrderedExcept(s: seq<Overlap>, n: nat, j: int) {
    forall p, q | 0 <= p < q < n && q < |s| && q != j :: !Better(s[q], s[p])
  }

  lemma SwapKeepsOrder(s: seq<Overlap>, t: seq<Overlap>, n: nat, j: nat)
    requires 0 < j < n <= |s| && OrderedExcept(s, n, j) && Better(s[j], s[j - 1])
    requires t == s[j := s[j - 1]][j - 1 := s[j]]
    ensures OrderedExcept(t, n, j - 1)
  {
    hide Better;
    forall p, q | 0 <= p < q < n && q != j - 1 ensures !Better(t[q], t[p]) {
      if q == j && p == j - 1 {
        BetterIsStrict(s[j], s[j - 1]);
      }
    }
  }

  lemma StopKeepsOrder(s: seq<Overlap>, n: nat, j: nat)
    requires j < n <= |s| && OrderedExcept(s, n, j) && (j > 0 ==> !Better(s[j], s[j - 1]))
    ensures OrderedExcept(s, n, -1)
  {
    hide Better;
    forall p | 0 <= p < j ensures !Better(s[j], s[p]) {
      if p < j - 1 {
        NotBetterTrans(s[j], s[j - 1], s[p]);
      }
    }
  }

  method SortOverlaps(overlaps: array<Overlap>)
    modifies overlaps
    ensures Ordered(overlaps[..])
    ensures multiset(overlaps[..]) == multiset(old(overlaps[..]))
  {
    hide Better;
    var i := 1;
    while i < overlaps.Length
      invariant 1 <= i && OrderedExcept(overlaps[..], i, -1)
      invariant multiset(overlaps[..]) == multiset(old(overlaps[..]))
    {
      var j := i;
      while j > 0
        invariant 0 <= j <= i < overlaps.Length && OrderedExcept(overlaps[..], i + 1, j)
        invariant multiset(overlaps[..]) == multiset(old(overlaps[..]))
      {
        if !Better(overlaps[j], overlaps[j - 1]) {
          break;
        }
        ghost var before := overlaps[..];
        overlaps[j], overlaps[j - 1] := overlaps[j - 1], overlaps[j];
        SwapKeepsOrder(before, overlaps[..], i + 1, j);
        j := j - 1;
      }
      StopKeepsOrder(overlaps[..], i + 1, j);
      i := i + 1;
    }
  }

  // ---- Greedy matching ----------------------------------------------------------------------

  /** The overlaps that greedy matching picks, best first. */
  function Greedy(overlaps: seq<Overlap>, matchedExisting: set<Uuid>, matchedNew: set<int>): seq<Overlap> {
    if overlaps == [] then []
    else
      var o := overlaps[0];
      if o.existingID in matchedExisting || o.newLabel in matchedNew || !Majority(o)
      then Greedy(overlaps[1..], matchedExisting, matchedNew)
      else [o] + Greedy(overlaps[1..], matchedExisting + {o.existingID}, matchedNew + {o.newLabel})
  }

  /** No two picks share a cluster on either side, and every pick is a majority overlap. */
  ghost predicate IsMatching(picked: seq<Overlap>) {
    && (forall o | o in picked :: Majority(o))
    && (forall i, j | 0 <= i < j < |picked| ::
          picked[i].existingID != picked[j].existingID && picked[i].newLabel != picked[j].newLabel)
  }

  /** `o` lost one of its clusters to a pick at least as good (possibly `o` itself). */
  ghost predicate Beaten(o: Overlap, picked: seq<Overlap>) {
    exists w | w in picked :: (w.newLabel == o.newLabel || w.existingID == o.existingID) && !Better(o, w)
  }

  lemma {:induction false} GreedyMatches(overlaps: seq<Overlap>, matchedExisting: set<Uuid>, matchedNew: set<int>)
    ensures var picked := Greedy(overlaps, matchedExisting, matchedNew);
            && IsMatching(picked)
            && forall o | o in picked ::
                 o in overlaps && o.existingID !in matchedExisting && o.newLabel !in matchedNew
  {
    if overlaps != [] {
      var o := overlaps[0];
      if o.existingID in matchedExisting || o.newLabel in matchedNew || !Majority(o) {
        GreedyMatches(overlaps[1..], matchedExisting, matchedNew);
      } else {
        GreedyMatches(overlaps[1..], matchedExisting + {o.existingID}, matchedNew + {o.newLabel});
      }
    }
  }

  /** The matching is stable: a majority overlap is rejected only in favour of a match at least as
      good for one of its two clusters. */
  lemma {:induction false} GreedyStable(overlaps: seq<Overlap>, matchedExisting: set<Uuid>, matchedNew: set<int>, o: Overlap)
    requires Ordered(overlaps) && o in overlaps && Majority(o)
    requires o.existingID !in matchedExisting && o.newLabel !in matchedNew
    ensures Beaten(o, Greedy(overlaps, matchedExisting, matchedNew))
  {
    var first, rest := overlaps[0], overlaps[1..];
    var picked := Greedy(overlaps, matchedExisting, matchedNew);
    if first.existingID in matchedExisting || first.newLabel in matchedNew || !Majority(first) {
      GreedyStable(rest, matchedExisting, matchedNew, o);
    } else if first.existingID == o.existingID || first.newLabel == o.newLabel {
      assert first in picked && !Better(o, first);
    } else {
      var more := Greedy(rest, matchedExisting + {first.existingID}, matchedNew + {first.newLabel});
      GreedyStable(rest, matchedExisting + {first.existingID}, matchedNew + {first.newLabel}, o);
      var w :| w in more && (w.newLabel == o.newLabel || w.existingID == o.existingID) && !Better(o, w);
      assert w in picked;
    }
  }

  // ---- The documented rule --------------------------------------------------------------------

  predicate Exceeds(o: Overlap) {
    Ratio(o) > 0.5
  }

  /** The matching with the guard that the documentation asks for: a fraction that exceeds one half. */
  function Strict(overlaps: seq<Overlap>, matchedExisting: set<Uuid>, matchedNew: set<int>): seq<Overlap> {
    if overlaps == [] then []
    else
      var o := overlaps[0];
      if o.existingID in matchedExisting || o.newLabel in matchedNew || !Exceeds(o)
      then Strict(overlaps[1..], matchedExisting, matchedNew)
      else [o] + Strict(overlaps[1..], matchedExisting + {o.existingID}, matchedNew + {o.newLabel})
  }

  ghost predicate Halves(picked: seq<Overlap>) {
    forall o | o in picked :: Ratio(o) == 0.5
  }

  ghost predicate AllExceed(picked: seq<Overlap>) {
    forall o | o in picked :: Exceeds(o)
  }

  /** Behind an overlap of one half or less nothing exceeds one half. */
  lemma {:induction false} StrictEnds(overlaps: seq<Overlap>, matchedExisting: set<Uuid>, matchedNew: set<int>)
    requires forall o | o in overlaps :: !Exceeds(o)
    ensures Strict(overlaps, matchedExisting, matchedNew) == []
  {
    if overlaps != [] {
      StrictEnds(overlaps[1..], matchedExisting, matchedNew);
    }
  }

  lemma OrderedTail(overlaps: seq<Overlap>)
    requires Ordered(overlaps) && overlaps != []
    ensures Ordered(overlaps[1..])
    ensures !Exceeds(overlaps[0]) ==> forall o | o in overlaps :: !Exceeds(o)
  {
    forall o | o in overlaps && !Exceeds(overlaps[0]) ensures !Exceeds(o) {
      var i :| 0 <= i < |overlaps| && overlaps[i] == o;
      assert i > 0 ==> !Better(overlaps[i], overlaps[0]);
    }
  }

  /** What the code matches is the documented matching, followed by picks of exactly one half. */
  lemma {:induction false} GreedyIsStrict(overlaps: seq<Overlap>, matchedExisting: set<Uuid>, matchedNew: set<int>)
    returns (halves: seq<Overlap>)
    requires Ordered(overlaps)
    ensures Greedy(overlaps, matchedExisting, matchedNew) == Strict(overlaps, matchedExisting, matchedNew) + halves
    ensures Halves(halves) && AllExceed(Strict(overlaps, matchedExisting, matchedNew))
  {
    halves := [];
    if overlaps != [] {
      var o := overlaps[0];
      OrderedTail(overlaps);
      if !Exceeds(o) {
        halves := Greedy(overlaps, matchedExisting, matchedNew);
        StrictEnds(overlaps, matchedExisting, matchedNew);
        GreedyMatches(overlaps, matchedExisting, matchedNew);
      } else if o.existingID in matchedExisting || o.newLabel in matchedNew {
        halves := GreedyIsStrict(overlaps[1..], matchedExisting, matchedNew);
      } else {
        halves := GreedyIsStrict(overlaps[1..], matchedExisting + {o.existingID}, matchedNew + {o.newLabel});
      }
    }
  }

  /** The code meets its documentation exactly if nothing is matched at exactly one half: that is, exactly if
      each overlap of one half loses a cluster to one of the documented matches. */
  lemma StrictExact(overlaps: seq<Overlap>)
    requires Ordered(overlaps)
    ensures var greedy, strict := Greedy(overlaps, {}, {}), Strict(overlaps, {}, {});
            && (greedy == strict <==> AllExceed(greedy))
            && (greedy == strict <==> forall o | o in overlaps && Ratio(o) == 0.5 :: Loses(o, strict))
  {
    var halves := GreedyIsStrict(overlaps, {}, {});
    var greedy, strict := Greedy(overlaps, {}, {}), Strict(overlaps, {}, {});
    GreedyMatches(overlaps, {}, {});
    if halves == [] {
      assert greedy == strict;
      forall o | o in overlaps && Ratio(o) == 0.5 ensures Loses(o, strict) {
        GreedyStable(overlaps, {}, {}, o);
      }
    } else {
      var n := |strict|;
      assert greedy[n] == halves[0] && halves[0] in halves && greedy[n] in greedy;
      forall i | 0 <= i < n ensures strict[i] == greedy[i] {}
      assert !Loses(halves[0], strict);
    }
  }

  /** One of its clusters is matched already. */
  ghost predicate Loses(o: Overlap, picked: seq<Overlap>) {
    exists w | w in picked :: w.newLabel == o.newLabel || w.existingID == o.existingID
  }

  /** An input on which the two differ. */
  lemma HalfIsEnough()
    ensures Ordered([Overlap(0, 7, 1, 2)])
    ensures Greedy([Overlap(0, 7, 1, 2)], {}, {}) == [Overlap(0, 7, 1, 2)] && Strict([Overlap(0, 7, 1, 2)], {}, {}) == []
  {
    assert Ratio(Overlap(0, 7, 1, 2)) == 0.5;
  }

  // ---- The diff -------------------------------------------------------------------------------

  ghost function ExistingIDs(picked: seq<Overlap>): set<Uuid> {
    set o | o in picked :: o.existingID
  }

  ghost function NewLabels(picked: seq<Overlap>): set<int> {
    set o | o in picked :: o.newLabel
  }

  /** The ids of `existing` that are not in `matched`, in order. */
  function Unmatched(existing: seq<Cluster>, matched: set<Uuid>): seq<Uuid> {
    if existing == [] then []
    else
      var last := existing[|existing| - 1].id;
      Unmatched(existing[..|existing| - 1], matched) + if last in matched then [] else [last]
  }

  /** The updates that `picked` stands for. */
  ghost predicate Updates(updated: seq<ClusterUpdate>, picked: seq<Overlap>, clusters: map<int, seq<nat>>) {
    && |updated| == |picked|
    && forall i | 0 <= i < |picked| ::
         && picked[i].newLabel in clusters
         && updated[i] == ClusterUpdate(picked[i].existingID, clusters[picked[i].newLabel], Ratio(picked[i]))
  }

  /** `born` lists the new clusters `labels`, each once. */
  ghost predicate Births(born: seq<ClusterBirth>, labels: seq<int>, clusters: map<int, seq<nat>>) {
    && |born| == |labels|
    && (forall i, j | 0 <= i < j < |labels| :: labels[i] != labels[j])
    && forall i | 0 <= i < |labels| :: labels[i] in clusters && born[i] == ClusterBirth(clusters[labels[i]])
  }

  /** What the diff is, given the overlaps in the order in which they were matched. */
  ghost predicate IsDiff(diff: DiffResult, overlaps: seq<Overlap>, bornLabels: seq<int>, clusters: map<int, seq<nat>>,
                         sourceIDs: seq<Uuid>, existing: seq<Cluster>) {
    var picked := Greedy(overlaps, {}, {});
    && Ordered(overlaps)
    && ListsOverlaps(overlaps, clusters.Keys, clusters, sourceIDs, Owners(existing))
    && Updates(diff.updated, picked, clusters)
    && Births(diff.born, bornLabels, clusters)
    && (forall l :: l in bornLabels <==> l in clusters && l !in NewLabels(picked))
    && diff.died == Unmatched(existing, ExistingIDs(picked))
  }

  /** `diff` is the difference, for some order of equally good overlaps and of births. */
  ghost predicate DiffOf(diff: DiffResult, clusters: map<int, seq<nat>>, sourceIDs: seq<Uuid>, existing: seq<Cluster>) {
    exists overlaps, bornLabels :: IsDiff(diff, overlaps, bornLabels, clusters, sourceIDs, existing)
  }

  ghost predicate BirthsBut(born: seq<ClusterBirth>, clusters: map<int, seq<nat>>, matchedNew: set<int>) {
    exists labels :: Births(born, labels, clusters) && forall l :: l in labels <==> l in clusters && l !in matchedNew
  }

  lemma PickNext(picked: seq<Overlap>, o: Overlap)
    ensures ExistingIDs(picked + [o]) == ExistingIDs(picked) + {o.existingID}
    ensures NewLabels(picked + [o]) == NewLabels(picked) + {o.newLabel}
  {
    forall p | p in picked ensures p in picked + [o] {}
    assert o in picked + [o];
  }

  method MatchOverlaps(overlaps: seq<Overlap>, clusters: map<int, seq<nat>>)
    returns (updated: seq<ClusterUpdate>, matchedExisting: set<Uuid>, matchedNew: set<int>)
    requires forall o | o in overlaps :: o.newLabel in clusters
    ensures Updates(updated, Greedy(overlaps, {}, {}), clusters)
    ensures matchedExisting == ExistingIDs(Greedy(overlaps, {}, {}))
    ensures matchedNew == NewLabels(Greedy(overlaps, {}, {}))
  {
    matchedExisting, matchedNew, updated := {}, {}, [];
    ghost var picked: seq<Overlap> := [];
    ghost var all := Greedy(overlaps, {}, {});
    assert overlaps[0..] == overlaps;
    assert picked + all == all;
    for i := 0 to |overlaps|
      invariant Updates(updated, picked, clusters)
      invariant matchedExisting == ExistingIDs(picked) && matchedNew == NewLabels(picked)
      invariant picked + Greedy(overlaps[i..], matchedExisting, matchedNew) == all
    {
      var o := overlaps[i];
      assert overlaps[i..][0] == o && overlaps[i..][1..] == overlaps[i + 1..];
      if o.existingID in matchedExisting || o.newLabel in matchedNew {
        continue;
      }
      var ratio := Ratio(o);
      if ratio < 0.5 {
        continue;
      }
      ghost var rest := Greedy(overlaps[i + 1..], matchedExisting + {o.existingID}, matchedNew + {o.newLabel});
      assert picked + ([o] + rest) == picked + [o] + rest;
      matchedExisting := matchedExisting + {o.existingID};
      matchedNew := matchedNew + {o.newLabel};
      updated := updated + [ClusterUpdate(o.existingID, clusters[o.newLabel], ratio)];
      PickNext(picked, o);
      picked := picked + [o];
    }
    assert overlaps[|overlaps|..] == [];
    assert picked + [] == picked;
  }

  method CollectBirths(clusters: map<int, seq<nat>>, matchedNew: set<int>)
    returns (born: seq<ClusterBirth>, ghost bornLabels: seq<int>)
    ensures Births(born, bornLabels, clusters)
    ensures forall l :: l in bornLabels <==> l in clusters && l !in matchedNew
    ensures BirthsBut(born, clusters, matchedNew)
  {
    born, bornLabels := [], [];
    var todo := clusters.Keys;
    while todo != {}
      invariant todo <= clusters.Keys
      invariant Births(born, bornLabels, clusters)
      invariant forall l :: l in bornLabels <==> l in clusters && l !in todo && l !in matchedNew
      decreases todo
    {
      var l := AnyKey(todo);
      if l !in matchedNew {
        born := born + [ClusterBirth(clusters[l])];
        bornLabels := bornLabels + [l];
      }
      todo := todo - {l};
    }
  }

  method CollectDeaths(existing: seq<Cluster>, matchedExisting: set<Uuid>) returns (died: seq<Uuid>)
    ensures died == Unmatched(existing, matchedExisting)
  {
    died := [];
    for i := 0 to |existing|
      invariant died == Unmatched(existing[..i], matchedExisting)
    {
      assert existing[..i + 1][..i] == existing[..i];
      if existing[i].id !in matchedExisting {
        died := died + [existing[i].id];
      }
    }
    assert existing[..|existing|] == existing;
  }

  method DiffClusters(newResult: ClusterResult, sourceIDs: seq<Uuid>, existing: seq<Cluster>)
    returns (diff: DiffResult, ghost overlaps: seq<Overlap>, ghost bornLabels: seq<int>)
    ensures IsDiff(diff, overlaps, bornLabels, newResult.clusters, sourceIDs, existing)
    ensures DiffOf(diff, newResult.clusters, sourceIDs, existing)
  {
    var owners := BuildOwners(existing);
    var found := CollectOverlaps(newResult.clusters, sourceIDs, owners);
    var sorted := new Overlap[|found|](i requires 0 <= i < |found| => found[i]);
    assert sorted[..] == found;
    SortOverlaps(sorted);
    overlaps := sorted[..];
    SameElements(found, overlaps);
    var updated, matchedExisting, matchedNew := MatchOverlaps(sorted[..], newResult.clusters);
    var born;
    born, bornLabels := CollectBirths(newResult.clusters, matchedNew);
    var died := CollectDeaths(existing, matchedExisting);
    diff := DiffResult(updated, born, died);
    assert IsDiff(diff, overlaps, bornLabels, newResult.clusters, sourceIDs, existing);
  }

  lemma SameElements(a: seq<Overlap>, b: seq<Overlap>)
    requires multiset(a) == multiset(b)
    ensures forall o: Overlap :: o in a <==> o in b
  {
    forall o: Overlap ensures o in a <==> o in b {
      assert o in a <==> o in multiset(a);
      assert o in b <==> o in multiset(b);
    }
  }

  // ---- Owners and shares ---------------------------------------------------------------------------

  /** The cluster at `k` is the last listed one that has the source. */
  ghost predicate LastOwner(existing: seq<Cluster>, s: Uuid, k: nat) {
    k < |existing| && s in existing[k].members && forall j | k < j < |existing| :: s !in existing[j].members
  }

  lemma {:induction false} OwnersMeaning(existing: seq<Cluster>, s: Uuid)
    ensures s in Owners(existing) <==> exists c | c in existing :: s in c.members
    ensures s in Owners(existing) ==> exists k: nat :: LastOwner(existing, s, k) && existing[k].id == Owners(existing)[s]
  {
    if existing != [] {
      var n: nat := |existing| - 1;
      var front, last := existing[..n], existing[n];
      assert existing == front + [last];
      OwnersMeaning(front, s);
      if s in last.members {
        assert LastOwner(existing, s, n);
      } else if s in Owners(front) {
        var k: nat :| LastOwner(front, s, k) && front[k].id == Owners(front)[s];
        assert LastOwner(existing, s, k) && existing[k] == front[k] && front[k] in existing;
      }
    }
  }

  /** The number of members of a new cluster that come from an existing one. */
  lemma {:induction false} SharedMeaning(indices: seq<nat>, sourceIDs: seq<Uuid>, owners: map<Uuid, Uuid>, id: Uuid)
    ensures Shared(indices, sourceIDs, owners, id) ==
            |set i | 0 <= i < |indices| && indices[i] < |sourceIDs| && sourceIDs[indices[i]] in owners && owners[sourceIDs[indices[i]]] == id|
  {
    var all := set i | 0 <= i < |indices| && indices[i] < |sourceIDs| && sourceIDs[indices[i]] in owners && owners[sourceIDs[indices[i]]] == id;
    if indices != [] {
      var n, front := |indices| - 1, indices[..|indices| - 1];
      SharedMeaning(front, sourceIDs, owners, id);
      var some := set i | 0 <= i < n && front[i] < |sourceIDs| && sourceIDs[front[i]] in owners && owners[sourceIDs[front[i]]] == id;
      assert all == if ComesFrom(indices[n], sourceIDs, owners, id) then some + {n} else some;
    }
  }

  lemma QuotientOrder(a: nat, b: nat, c: nat, d: nat)
    requires b > 0 && d > 0
    ensures a as real / b as real > c as real / d as real <==> a * d > c * b
    ensures a as real / b as real == c as real / d as real <==> a * d == c * b
  {
    var x, y, m, n := a as real / b as real, c as real / d as real, b as real, d as real;
    assert x * m == a as real && y * n == c as real;
    assert (a * d) as real == x * (m * n) && (c * b) as real == y * (m * n);
    assert m * n > 0.0;
    ScaledOrder(x, y, m * n);
  }

  lemma ScaledOrder(x: real, y: real, k: real)
    requires k > 0.0
    ensures x > y <==> x * k > y * k
    ensures x == y <==> x * k == y * k
  {
  }

  /** The update `u` is at least as good a match as `o`: by the fraction of shared members, then by their number. */
  ghost predicate NoWorse(w: Overlap, o: Overlap) {
    || w.overlapCount * o.newSize > o.overlapCount * w.newSize
    || (w.overlapCount * o.newSize == o.overlapCount * w.newSize && w.overlapCount >= o.overlapCount)
  }

  lemma BetterMeaning(o: Overlap, w: Overlap)
    ensures Better(o, w) <==> !NoWorse(w, o)
    ensures Majority(o) <==> 2 * o.overlapCount >= o.newSize
  {
    QuotientOrder(o.overlapCount, o.newSize, w.overlapCount, w.newSize);
    QuotientOrder(o.overlapCount, o.newSize, 1, 2);
  }

  // ---- What the diff means ------------------------------------------------------------------------

  /** Any overlap of at least one half is matched, or one of its clusters has a match at least as good. */
  lemma DiffStable(diff: DiffResult, overlaps: seq<Overlap>, bornLabels: seq<int>, clusters: map<int, seq<nat>>,
                   sourceIDs: seq<Uuid>, existing: seq<Cluster>, o: Overlap)
    requires IsDiff(diff, overlaps, bornLabels, clusters, sourceIDs, existing)
    requires IsOverlap(o, clusters, sourceIDs, Owners(existing)) && 2 * o.overlapCount >= o.newSize
    ensures exists w | w in Greedy(overlaps, {}, {}) :: (w.newLabel == o.newLabel || w.existingID == o.existingID) && NoWorse(w, o)
    ensures Beaten(o, Greedy(overlaps, {}, {}))
  {
    BetterMeaning(o, o);
    GreedyStable(overlaps, {}, {}, o);
    var w :| w in Greedy(overlaps, {}, {}) && (w.newLabel == o.newLabel || w.existingID == o.existingID) && !Better(o, w);
    BetterMeaning(o, w);
  }

  /** Each update is an overlap of a new and an existing cluster with at least half of the members, and says so. */
  lemma UpdatesMeaning(diff: DiffResult, overlaps: seq<Overlap>, bornLabels: seq<int>, clusters: map<int, seq<nat>>,
                       sourceIDs: seq<Uuid>, existing: seq<Cluster>, i: nat)
    requires IsDiff(diff, overlaps, bornLabels, clusters, sourceIDs, existing) && i < |diff.updated|
    ensures var u := diff.updated[i];
            var shared := Shared(u.newMembers, sourceIDs, Owners(existing), u.clusterID);
            && (exists l | l in clusters :: clusters[l] == u.newMembers)
            && (exists c | c in existing :: c.id == u.clusterID)
            && 0 < |u.newMembers| <= 2 * shared && u.overlapRatio == shared as real / |u.newMembers| as real
  {
    var o := Greedy(overlaps, {}, {})[i];
    GreedyMatches(overlaps, {}, {});
    assert o in Greedy(overlaps, {}, {}) && o in overlaps && clusters[o.newLabel] == diff.updated[i].newMembers;
    BetterMeaning(o, o);
    SharedOwner(clusters[o.newLabel], sourceIDs, Owners(existing), o.existingID);
    var s :| s in Owners(existing) && Owners(existing)[s] == o.existingID;
    OwnersAreExisting(existing, s);
  }

  /** The difference is the documented one exactly if no update has an overlap ratio of exactly one half. */
  lemma DiffDocumented(diff: DiffResult, overlaps: seq<Overlap>, bornLabels: seq<int>, clusters: map<int, seq<nat>>,
                       sourceIDs: seq<Uuid>, existing: seq<Cluster>)
    requires IsDiff(diff, overlaps, bornLabels, clusters, sourceIDs, existing)
    ensures Greedy(overlaps, {}, {}) == Strict(overlaps, {}, {}) <==>
            forall i | 0 <= i < |diff.updated| :: diff.updated[i].overlapRatio != 0.5
  {
    var picked := Greedy(overlaps, {}, {});
    GreedyMatches(overlaps, {}, {});
    StrictExact(overlaps);
    forall o | o in picked ensures exists i :: 0 <= i < |picked| && picked[i] == o && diff.updated[i].overlapRatio == Ratio(o) {
      var i :| 0 <= i < |picked| && picked[i] == o;
      assert diff.updated[i].overlapRatio == Ratio(o);
    }
    forall i | 0 <= i < |picked| ensures picked[i] in picked && Ratio(picked[i]) >= 0.5 {}
  }

  lemma {:induction false} UnmatchedIDs(existing: seq<Cluster>, matched: set<Uuid>)
    ensures forall id :: id in Unmatched(existing, matched) <==> id !in matched && exists c | c in existing :: c.id == id
  {
    if existing != [] {
      var front, last := existing[..|existing| - 1], existing[|existing| - 1];
      UnmatchedIDs(front, matched);
      assert existing == front + [last];
      forall id ensures id in Unmatched(existing, matched) <==> id !in matched && exists c | c in existing :: c.id == id {
        if exists c | c in existing :: c.id == id {
          var c :| c in existing && c.id == id;
          assert c in front || c == last;
        }
      }
    }
  }

  lemma {:induction false} OwnersAreExisting(existing: seq<Cluster>, s: Uuid)
    requires s in Owners(existing)
    ensures exists c | c in existing :: c.id == Owners(existing)[s] && s in c.members
  {
    var front, last := existing[..|existing| - 1], existing[|existing| - 1];
    if s in last.members {
      assert last in existing;
    } else {
      OwnersAreExisting(front, s);
      var c :| c in front && c.id == Owners(front)[s] && s in c.members;
      assert c in existing;
    }
  }

  lemma {:induction false} SharedOwner(indices: seq<nat>, sourceIDs: seq<Uuid>, owners: map<Uuid, Uuid>, id: Uuid)
    requires Shared(indices, sourceIDs, owners, id) > 0
    ensures exists s :: s in owners && owners[s] == id
  {
    var idx := indices[|indices| - 1];
    if ComesFrom(idx, sourceIDs, owners, id) {
      assert sourceIDs[idx] in owners;
    } else {
      SharedOwner(indices[..|indices| - 1], sourceIDs, owners, id);
    }
  }

  /** The updates and the deaths partition the existing clusters; the updates and the births
      partition the new ones. */
  lemma DiffPartitions(diff: DiffResult, overlaps: seq<Overlap>, bornLabels: seq<int>, clusters: map<int, seq<nat>>,
                       sourceIDs: seq<Uuid>, existing: seq<Cluster>)
    requires IsDiff(diff, overlaps, bornLabels, clusters, sourceIDs, existing)
    ensures var picked := Greedy(overlaps, {}, {});
            && (forall id :: (exists c | c in existing :: c.id == id) <==> id in ExistingIDs(picked) || id in diff.died)
            && (forall id :: !(id in ExistingIDs(picked) && id in diff.died))
            && (forall l :: l in clusters <==> l in NewLabels(picked) || l in bornLabels)
            && (forall l :: !(l in NewLabels(picked) && l in bornLabels))
            && IsMatching(picked)
  {
    var picked := Greedy(overlaps, {}, {});
    GreedyMatches(overlaps, {}, {});
    UnmatchedIDs(existing, ExistingIDs(picked));
    forall o | o in picked ensures exists c | c in existing :: c.id == o.existingID {
      SharedOwner(clusters[o.newLabel], sourceIDs, Owners(existing), o.existingID);
      var s :| s in Owners(existing) && Owners(existing)[s] == o.existingID;
      OwnersAreExisting(existing, s);
    }
  }
}
