/** Semantic search with bounded overfetch (internal/grpc/server.go:5386-5492).

    The vector backend is a fixed ranking whose first `limit` hits answer a query; the primary store is
    a fixed map of the memories that may be returned.  Scores are reals. */
module MemorySearch {
  import opened Wrappers
  import opened KindSelector
  import opened Sorting

  const MaxOverfetch: nat := 1000

  datatype Hit = Hit(id: nat, score: real, revision: int, kind: string, validated: bool)

  datatype Item = Item(kind: string, revision: int)

  /** A memory of the answer. */
  datatype Scored = Scored(id: nat, score: real)

  function SearchMemoryVectors(ranking: seq<Hit>, limit: nat): seq<Hit> {
    ranking[..Min(limit, |ranking|)]
  }

  /** The hit is of the right kind and, unless the store vouches for it, not stale. */
  predicate CandidateEligible(hit: Hit, item: Item, memoryKind: string) {
    && MatchesKindSelector(item.kind, memoryKind)
    && (hit.validated || (hit.kind != "" && hit.kind == item.kind && hit.revision > 0 && item.revision == hit.revision))
  }

  // ---- De-duplication --------------------------------------------------------------------------

  /** The distinct memories of the hits, in order of their first hits. */
  function FirstSeen(hits: seq<Hit>): seq<nat> {
    if hits == [] then []
    else
      var seen, last := FirstSeen(hits[..|hits| - 1]), hits[|hits| - 1];
      if last.id in seen then seen else seen + [last.id]
  }

  /** For each memory its first hit, with the best score of its hits. */
  function BestByID(hits: seq<Hit>): map<nat, Hit> {
    if hits == [] then map[]
    else
      MergeBest(BestByID(hits[..|hits| - 1]), hits[|hits| - 1])
  }

  function MergeBest(best: map<nat, Hit>, hit: Hit): map<nat, Hit> {
    if hit.id !in best then best[hit.id := hit]
    else if hit.score > best[hit.id].score then best[hit.id := best[hit.id].(score := hit.score)]
    else best
  }

  lemma {:induction false} DedupMembers(hits: seq<Hit>)
    ensures Distinct(FirstSeen(hits))
    ensures forall id :: id in FirstSeen(hits) <==> id in BestByID(hits)
    ensures forall id | id in BestByID(hits) :: BestByID(hits)[id].id == id
  {
    if hits != [] {
      DedupMembers(hits[..|hits| - 1]);
    }
  }

  ghost predicate FirstAt(hits: seq<Hit>, id: nat, i: nat) {
    i < |hits| && hits[i].id == id && forall k | 0 <= k < i :: hits[k].id != id
  }

  ghost predicate BestAt(hits: seq<Hit>, id: nat, j: nat) {
    j < |hits| && hits[j].id == id && forall k | 0 <= k < |hits| :: hits[k].id == id ==> hits[k].score <= hits[j].score
  }

  ghost predicate MergedFrom(best: Hit, hits: seq<Hit>, id: nat) {
    exists i: nat, j: nat :: FirstAt(hits, id, i) && BestAt(hits, id, j) && best == hits[i].(score := hits[j].score)
  }

  ghost predicate Occurs(hits: seq<Hit>, id: nat) {
    exists k :: 0 <= k < |hits| && hits[k].id == id
  }

  lemma MergedNext(best: Hit, hits: seq<Hit>, last: Hit, id: nat)
    requires MergedFrom(best, hits, id)
    ensures MergedFrom(if last.id == id && last.score > best.score then best.(score := last.score) else best, hits + [last], id)
  {
    var i: nat, j: nat :| FirstAt(hits, id, i) && BestAt(hits, id, j) && best == hits[i].(score := hits[j].score);
    var j': nat := if last.id == id && last.score > best.score then |hits| else j;
    assert FirstAt(hits + [last], id, i) && BestAt(hits + [last], id, j');
  }

  lemma MergedFirst(hits: seq<Hit>, last: Hit)
    requires !Occurs(hits, last.id)
    ensures MergedFrom(last, hits + [last], last.id)
  {
    var all, n := hits + [last], |hits|;
    assert all[n] == last && forall k | 0 <= k < n :: all[k] == hits[k];
    assert FirstAt(all, last.id, n) && BestAt(all, last.id, n);
    assert last == all[n].(score := all[n].score);
  }

  /** Whatever the order of the hits, a memory keeps the revision and kind of its first hit and the
      largest of its scores. */
  lemma {:induction false} BestMeaning(hits: seq<Hit>, id: nat)
    ensures id in BestByID(hits) <==> Occurs(hits, id)
    ensures id in BestByID(hits) ==> MergedFrom(BestByID(hits)[id], hits, id)
  {
    if hits == [] {
      hide MergedFrom;
    } else {
      hide MergedFrom, Occurs, BestByID;
      var n: nat := |hits| - 1;
      BestMeaning(hits[..n], id);
      OccursNext(hits, id);
      MergeLast(hits);
      FrontLast(hits);
      if id in BestByID(hits[..n]) {
        MergedNext(BestByID(hits[..n])[id], hits[..n], hits[n], id);
      } else if hits[n].id == id {
        MergedFirst(hits[..n], hits[n]);
      }
    }
  }

  lemma OccursNext(hits: seq<Hit>, id: nat)
    requires hits != []
    ensures Occurs(hits, id) <==> Occurs(hits[..|hits| - 1], id) || hits[|hits| - 1].id == id
  {
    var front := hits[..|hits| - 1];
    if Occurs(front, id) {
      var k :| 0 <= k < |front| && front[k].id == id;
      assert hits[k].id == id;
    }
  }

  lemma MergeLast(hits: seq<Hit>)
    requires hits != []
    ensures BestByID(hits) == MergeBest(BestByID(hits[..|hits| - 1]), hits[|hits| - 1])
  {
    hide MergeBest;
  }

  lemma FrontLast(hits: seq<Hit>)
    requires hits != []
    ensures hits[..|hits| - 1] + [hits[|hits| - 1]] == hits
  {
  }

  // ---- The answer ---------------------------------------------------------------------------------

  /** The eligible ones of `ids`, with their scores. */
  function Keep(ids: seq<nat>, best: map<nat, Hit>, items: map<nat, Item>, memoryKind: string): seq<Scored> {
    if ids == [] then []
    else
      var id := ids[|ids| - 1];
      Keep(ids[..|ids| - 1], best, items, memoryKind)
      + if id in best && id in items && CandidateEligible(best[id], items[id], memoryKind)
        then [Scored(id, best[id].score)] else []
  }

  predicate HigherScore(a: Scored, b: Scored) {
    a.score > b.score
  }

  lemma TakeIs(s: seq<Scored>, limit: nat)
    ensures Take(s, limit) == if |s| > limit then s[..limit] else s
  {
  }

  /** The eligible memories of the hits, best first. */
  function Results(hits: seq<Hit>, items: map<nat, Item>, memoryKind: string): seq<Scored> {
    StableSort(Keep(FirstSeen(hits), BestByID(hits), items, memoryKind), HigherScore)
  }

  /** How many hits the loop has fetched when it stops, starting with `fetchLimit`. */
  function FinalFetch(ranking: seq<Hit>, items: map<nat, Item>, memoryKind: string, limit: nat, fetchLimit: nat): (r: nat)
    requires 0 < fetchLimit <= MaxOverfetch
    ensures fetchLimit <= r <= MaxOverfetch
    ensures |Results(SearchMemoryVectors(ranking, r), items, memoryKind)| >= limit || |ranking| < r || r == MaxOverfetch
    decreases MaxOverfetch - fetchLimit
  {
    var next := Min(fetchLimit * 2, MaxOverfetch);
    if |Results(SearchMemoryVectors(ranking, fetchLimit), items, memoryKind)| >= limit || |ranking| < fetchLimit
       || next == fetchLimit
    then fetchLimit
    else FinalFetch(ranking, items, memoryKind, limit, next)
  }

  function FirstFetch(limit: nat): (r: nat)
    ensures 0 < r <= MaxOverfetch
  {
    Min(if limit * 4 < limit + 10 then limit + 10 else limit * 4, MaxOverfetch)
  }

  function Doubled(n: nat, times: nat): nat {
    if times == 0 then n else 2 * Doubled(n, times - 1)
  }

  /** The backend is asked for four times the limit, but for ten hits more at least, and then for twice as many each time;
      never for more than a thousand. */
  lemma FetchSizes(ranking: seq<Hit>, items: map<nat, Item>, limit: nat, memoryKind: string)
    ensures var first := if 4 * limit > limit + 10 then 4 * limit else limit + 10;
            exists times :: FinalFetch(ranking, items, memoryKind, limit, FirstFetch(limit)) == Min(1000, Doubled(first, times))
  {
    var first := if 4 * limit > limit + 10 then 4 * limit else limit + 10;
    assert FirstFetch(limit) == Min(1000, Doubled(first, 0));
    FetchSizesFrom(ranking, items, limit, memoryKind, first, 0);
  }

  lemma {:induction false} FetchSizesFrom(ranking: seq<Hit>, items: map<nat, Item>, limit: nat, memoryKind: string, first: nat, times: nat)
    requires first > 0 && 0 < Min(1000, Doubled(first, times))
    ensures exists more :: FinalFetch(ranking, items, memoryKind, limit, Min(1000, Doubled(first, times))) == Min(1000, Doubled(first, more))
    decreases 1000 - Min(1000, Doubled(first, times))
  {
    var fetch := Min(1000, Doubled(first, times));
    FetchStep(ranking, items, memoryKind, limit, fetch);
    hide FinalFetch, Results, SearchMemoryVectors;
    var next := Min(fetch * 2, MaxOverfetch);
    assert next == Min(1000, Doubled(first, times + 1));
    if FinalFetch(ranking, items, memoryKind, limit, fetch) != fetch {
      FetchSizesFrom(ranking, items, limit, memoryKind, first, times + 1);
    }
  }

  // ---- The loops -------------------------------------------------------------------------------------

  /** Merging a hit that was merged before changes nothing. */
  lemma {:induction false} MergeAgain(hits: seq<Hit>, i: nat)
    requires i < |hits|
    ensures hits[i].id in BestByID(hits) && hits[i].score <= BestByID(hits)[hits[i].id].score
  {
    var front := hits[..|hits| - 1];
    if i < |front| {
      MergeAgain(front, i);
      assert front[i] == hits[i];
    }
  }

  lemma MergeNext(hits: seq<Hit>, n: nat)
    requires n < |hits|
    ensures BestByID(hits[..n + 1]) == MergeBest(BestByID(hits[..n]), hits[n])
    ensures FirstSeen(hits[..n + 1]) ==
            if hits[n].id in BestByID(hits[..n]) then FirstSeen(hits[..n]) else FirstSeen(hits[..n]) + [hits[n].id]
  {
    assert hits[..n + 1][..n] == hits[..n] && hits[..n + 1][n] == hits[n];
    DedupMembers(hits[..n]);
  }

  lemma MergeKnown(hits: seq<Hit>, known: nat, i: nat)
    requires i < known <= |hits|
    ensures MergeBest(BestByID(hits[..known]), hits[i]) == BestByID(hits[..known])
    ensures hits[i].id in BestByID(hits[..known])
  {
    assert hits[..known][i] == hits[i];
    MergeAgain(hits[..known], i);
  }

  /** Merging a hit again, or for the first time. */
  lemma MergeTurn(hits: seq<Hit>, known: nat, i: nat)
    requires i < |hits| && known <= |hits|
    ensures var n, m := if i < known then known else i, if i < known then known else i + 1;
            && BestByID(hits[..m]) == MergeBest(BestByID(hits[..n]), hits[i])
            && FirstSeen(hits[..m]) ==
               if hits[i].id in BestByID(hits[..n]) then FirstSeen(hits[..n]) else FirstSeen(hits[..n]) + [hits[i].id]
  {
    if i < known {
      MergeKnown(hits, known, i);
    } else {
      MergeNext(hits, i);
    }
  }

  /** One hit merged by the loop. */
  method MergeHit(vr: Hit, best0: map<nat, Hit>, order0: seq<nat>) returns (best: map<nat, Hit>, order: seq<nat>)
    ensures best == MergeBest(best0, vr)
    ensures order == if vr.id in best0 then order0 else order0 + [vr.id]
  {
    best, order := best0, order0;
    if vr.id !in best {
      best := best[vr.id := vr];
      order := order + [vr.id];
    } else if vr.score > best[vr.id].score {
      var prev := best[vr.id];
      best := best[vr.id := Hit(prev.id, vr.score, prev.revision, prev.kind, prev.validated)];
    }
  }

  /** Merges the fetched hits, of which the first ones, `merged`, were merged before. */
  method MergeHits(hits: seq<Hit>, ghost merged: seq<Hit>, best0: map<nat, Hit>, order0: seq<nat>)
    returns (bestByID: map<nat, Hit>, orderedIDs: seq<nat>)
    requires merged <= hits && best0 == BestByID(merged) && order0 == FirstSeen(merged)
    ensures bestByID == BestByID(hits) && orderedIDs == FirstSeen(hits)
  {
    ghost var known: nat := |merged|;
    assert merged == hits[..known];
    hide BestByID, FirstSeen, MergeBest;
    bestByID, orderedIDs := best0, order0;
    ghost var n: nat := known;
    for i := 0 to |hits|
      invariant known <= n <= |hits| && n == if i < known then known else i
      invariant bestByID == BestByID(hits[..n]) && orderedIDs == FirstSeen(hits[..n])
    {
      MergeTurn(hits, known, i);
      n := if i < known then known else i + 1;
      bestByID, orderedIDs := MergeHit(hits[i], bestByID, orderedIDs);
    }
    assert hits[..|hits|] == hits;
  }

  /** Checks the merged hits against the primary store, in order. */
  method KeepEligible(orderedIDs: seq<nat>, bestByID: map<nat, Hit>, items: map<nat, Item>, memoryKind: string)
    returns (results: seq<Scored>)
    requires forall id | id in orderedIDs :: id in bestByID
    ensures results == Keep(orderedIDs, bestByID, items, memoryKind)
  {
    results := [];
    for i := 0 to |orderedIDs|
      invariant results == Keep(orderedIDs[..i], bestByID, items, memoryKind)
    {
      var id := orderedIDs[i];
      assert orderedIDs[..i + 1][..i] == orderedIDs[..i];
      if id !in items {
        continue;
      }
      var hit, item := bestByID[id], items[id];
      if !hit.validated {
        if hit.kind != "" {
          if hit.kind != item.kind {
            continue;
          }
        } else {
          continue;
        }
        if hit.revision <= 0 || item.revision != hit.revision {
          continue;
        }
      }
      if !MatchesKindSelector(item.kind, memoryKind) {
        continue;
      }
      results := results + [Scored(id, hit.score)];
    }
    assert orderedIDs[..|orderedIDs|] == orderedIDs;
  }

  lemma FetchedPrefix(ranking: seq<Hit>, fetchLimit: nat, more: nat)
    requires fetchLimit <= more
    ensures var hits := SearchMemoryVectors(ranking, fetchLimit);
            && hits <= SearchMemoryVectors(ranking, more) && (|hits| < fetchLimit <==> |ranking| < fetchLimit)
  {
  }

  lemma FetchStep(ranking: seq<Hit>, items: map<nat, Item>, memoryKind: string, limit: nat, fetchLimit: nat)
    requires 0 < fetchLimit <= MaxOverfetch
    ensures var next := Min(fetchLimit * 2, MaxOverfetch);
            && 0 < next <= MaxOverfetch && fetchLimit <= next
            && FinalFetch(ranking, items, memoryKind, limit, fetchLimit) ==
               (if |Results(SearchMemoryVectors(ranking, fetchLimit), items, memoryKind)| >= limit
                   || |ranking| < fetchLimit || next == fetchLimit
                then fetchLimit else FinalFetch(ranking, items, memoryKind, limit, next))
  {
  }

  /** One iteration: merge what was fetched and answer from it. */
  method SearchOnce(hits: seq<Hit>, ghost merged: seq<Hit>, best0: map<nat, Hit>, order0: seq<nat>,
                    items: map<nat, Item>, memoryKind: string)
    returns (bestByID: map<nat, Hit>, orderedIDs: seq<nat>, results: seq<Scored>)
    requires merged <= hits && best0 == BestByID(merged) && order0 == FirstSeen(merged)
    ensures bestByID == BestByID(hits) && orderedIDs == FirstSeen(hits)
    ensures results == Results(hits, items, memoryKind)
  {
    bestByID, orderedIDs := MergeHits(hits, merged, best0, order0);
    DedupMembers(hits);
    var kept := KeepEligible(orderedIDs, bestByID, items, memoryKind);
    results := StableSort(kept, HigherScore);
  }

  method SemanticSearch(ranking: seq<Hit>, items: map<nat, Item>, limit: nat, memoryKind: string)
    returns (results: seq<Scored>)
    ensures var fetched := FinalFetch(ranking, items, memoryKind, limit, FirstFetch(limit));
            results == Take(Results(SearchMemoryVectors(ranking, fetched), items, memoryKind), limit)
  {
    var fetchLimit: nat := limit * 4;
    if fetchLimit < limit + 10 {
      fetchLimit := limit + 10;
    }
    if fetchLimit > MaxOverfetch {
      fetchLimit := MaxOverfetch;
    }
    var bestByID: map<nat, Hit>, orderedIDs: seq<nat> := map[], [];
    ghost var merged: seq<Hit>, fetched: nat := [], FinalFetch(ranking, items, memoryKind, limit, fetchLimit);
    assert fetchLimit == FirstFetch(limit);
    results := [];
    assert Results([], items, memoryKind) == [];
    hide *;
    while true
      invariant 0 < fetchLimit <= MaxOverfetch && merged <= SearchMemoryVectors(ranking, fetchLimit)
      invariant bestByID == BestByID(merged) && orderedIDs == FirstSeen(merged)
      invariant results == Results(merged, items, memoryKind)
      invariant FinalFetch(ranking, items, memoryKind, limit, fetchLimit) == fetched
      decreases MaxOverfetch - fetchLimit
    {
      var hits := SearchMemoryVectors(ranking, fetchLimit);
      FetchStep(ranking, items, memoryKind, limit, fetchLimit);
      FetchedPrefix(ranking, fetchLimit, Min(fetchLimit * 2, MaxOverfetch));
      if |hits| == 0 {
        break;
      }
      bestByID, orderedIDs, results := SearchOnce(hits, merged, bestByID, orderedIDs, items, memoryKind);
      merged := hits;
      if |results| >= limit || |hits| < fetchLimit {
        break;
      }
      var prevFetchLimit := fetchLimit;
      fetchLimit := Min(fetchLimit * 2, MaxOverfetch);
      if fetchLimit == prevFetchLimit {
        break;
      }
    }
    TakeIs(results, limit);
    if |results| > limit {
      results := results[..limit];
    }
  }

  // ---- What is answered ---------------------------------------------------------------------------

  ghost predicate Descending(hits: seq<Hit>) {
    forall i, j | 0 <= i < j < |hits| :: hits[i].score >= hits[j].score
  }

  /** The reference: the first hit of each memory, if it is eligible, in the order of the ranking. */
  function Kept(hits: seq<Hit>, items: map<nat, Item>, memoryKind: string): seq<Scored> {
    if hits == [] then []
    else
      var front, last := hits[..|hits| - 1], hits[|hits| - 1];
      Kept(front, items, memoryKind)
      + if last.id !in FirstSeen(front) && last.id in items && CandidateEligible(last, items[last.id], memoryKind)
        then [Scored(last.id, last.score)] else []
  }

  lemma {:induction false} KeepSame(ids: seq<nat>, best: map<nat, Hit>, more: map<nat, Hit>, items: map<nat, Item>, memoryKind: string)
    requires forall id | id in ids :: id in best && id in more && more[id] == best[id]
    ensures Keep(ids, best, items, memoryKind) == Keep(ids, more, items, memoryKind)
  {
    if ids != [] {
      assert ids[|ids| - 1] in ids;
      KeepSame(ids[..|ids| - 1], best, more, items, memoryKind);
    }
  }

  /** In a ranking the first hit of a memory has its best score. */
  lemma {:induction false} BestIsFirst(hits: seq<Hit>, id: nat)
    requires Descending(hits) && id in BestByID(hits)
    ensures hits != [] && BestByID(hits)[id].score >= hits[|hits| - 1].score
  {
    var front, last := hits[..|hits| - 1], hits[|hits| - 1];
    if id in BestByID(front) {
      BestIsFirst(front, id);
      assert front[|front| - 1].score >= last.score;
    }
  }

  /** In a ranking only the first hit of a memory counts. */
  lemma BestNext(front: seq<Hit>, last: Hit)
    requires Descending(front + [last])
    ensures var seen, best := FirstSeen(front), BestByID(front);
            && FirstSeen(front + [last]) == (if last.id in seen then seen else seen + [last.id])
            && BestByID(front + [last]) == (if last.id in seen then best else best[last.id := last])
  {
    var hits := front + [last];
    assert hits[..|front|] == front;
    DedupMembers(front);
    if last.id in BestByID(front) {
      assert forall i | 0 <= i < |front| :: front[i] == hits[i];
      BestIsFirst(front, last.id);
      assert hits[|front| - 1].score >= hits[|front|].score;
    }
  }

  lemma KeepNext(ids: seq<nat>, best: map<nat, Hit>, last: Hit, items: map<nat, Item>, memoryKind: string)
    requires last.id !in ids && forall id | id in ids :: id in best
    ensures Keep(ids + [last.id], best[last.id := last], items, memoryKind) ==
            Keep(ids, best, items, memoryKind)
            + if last.id in items && CandidateEligible(last, items[last.id], memoryKind) then [Scored(last.id, last.score)] else []
  {
    KeepSame(ids, best, best[last.id := last], items, memoryKind);
    assert (ids + [last.id])[..|ids|] == ids;
  }

  lemma {:induction false} KeepIsKept(hits: seq<Hit>, items: map<nat, Item>, memoryKind: string)
    requires Descending(hits)
    ensures Keep(FirstSeen(hits), BestByID(hits), items, memoryKind) == Kept(hits, items, memoryKind)
  {
    if hits != [] {
      var front, last := hits[..|hits| - 1], hits[|hits| - 1];
      KeepIsKept(front, items, memoryKind);
      DedupMembers(front);
      assert front + [last] == hits;
      BestNext(front, last);
      hide Keep, FirstSeen, BestByID, CandidateEligible, Distinct, Descending;
      if last.id !in FirstSeen(front) {
        KeepNext(FirstSeen(front), BestByID(front), last, items, memoryKind);
      }
    }
  }

  lemma {:induction false} KeptDescends(hits: seq<Hit>, items: map<nat, Item>, memoryKind: string)
    requires Descending(hits)
    ensures SortedBy(Kept(hits, items, memoryKind), HigherScore)
    ensures forall x | x in Kept(hits, items, memoryKind) :: hits != [] && x.score >= hits[|hits| - 1].score
  {
    if hits != [] {
      var front, last := hits[..|hits| - 1], hits[|hits| - 1];
      KeptDescends(front, items, memoryKind);
      var kept := Kept(front, items, memoryKind);
      forall i | 0 <= i < |kept| ensures kept[i].score >= last.score {
        assert kept[i] in kept;
        assert front[|front| - 1].score >= last.score;
      }
    }
  }

  lemma ResultsAreKept(hits: seq<Hit>, items: map<nat, Item>, memoryKind: string)
    requires Descending(hits)
    ensures Results(hits, items, memoryKind) == Kept(hits, items, memoryKind)
  {
    KeepIsKept(hits, items, memoryKind);
    KeptDescends(hits, items, memoryKind);
    SortedIsFixed(Kept(hits, items, memoryKind), HigherScore);
  }

  lemma {:induction false} KeptGrows(hits: seq<Hit>, n: nat, items: map<nat, Item>, memoryKind: string)
    requires n <= |hits|
    ensures Kept(hits[..n], items, memoryKind) <= Kept(hits, items, memoryKind)
  {
    if n < |hits| {
      var front := hits[..|hits| - 1];
      KeptGrows(front, n, items, memoryKind);
      assert front[..n] == hits[..n];
    } else {
      assert hits[..n] == hits;
    }
  }

  lemma DescendingStart(hits: seq<Hit>, n: nat)
    requires Descending(hits) && n <= |hits|
    ensures Descending(hits[..n])
  {
  }

  /** Over any ranking and any placement of stale or foreign hits, the answer is the first `limit`
      memories of the full de-duplicated ranking filtered for freshness and kind, unless the loop stops
      at the cap.  It is that answer exactly if the hits within the cap hold enough eligible memories,
      or all of them. */
  lemma SearchExact(ranking: seq<Hit>, items: map<nat, Item>, limit: nat, memoryKind: string)
    requires Descending(ranking)
    ensures var fetched := FinalFetch(ranking, items, memoryKind, limit, FirstFetch(limit));
            var answer := Take(Results(SearchMemoryVectors(ranking, fetched), items, memoryKind), limit);
            var full := Kept(ranking, items, memoryKind);
            var capped := Kept(SearchMemoryVectors(ranking, MaxOverfetch), items, memoryKind);
            && (fetched < MaxOverfetch ==> answer == Take(full, limit))
            && (answer == Take(full, limit) <==> |capped| >= limit || |capped| == |full|)
  {
    hide Kept, Results, Take, Descending;
    var fetched := FinalFetch(ranking, items, memoryKind, limit, FirstFetch(limit));
    var n, m := Min(fetched, |ranking|), Min(MaxOverfetch, |ranking|);
    DescendingStart(ranking, n);
    ResultsAreKept(ranking[..n], items, memoryKind);
    KeptGrows(ranking, n, items, memoryKind);
    KeptGrows(ranking, m, items, memoryKind);
    KeptGrows(ranking[..m], n, items, memoryKind);
    assert ranking[..m][..n] == ranking[..n];
    assert n == |ranking| ==> ranking[..n] == ranking;
    TakePrefix(Kept(ranking[..n], items, memoryKind), Kept(ranking, items, memoryKind), limit);
  }
}
