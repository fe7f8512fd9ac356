/** Multi-query semantic search: bounded overfetch per query and reciprocal-rank fusion
    (internal/grpc/server.go:5530-5794).  The primary store is a fixed snapshot; scores are reals. */
module RankFusion {
  import opened Wrappers
  import opened KindSelector
  import opened Sorting
  import opened MemorySearch

  datatype Query = Query(ranking: seq<Hit>, purpose: string)

  // ---- One query --------------------------------------------------------------------------------

  /** The first hit of each memory. */
  function FirstByID(hits: seq<Hit>): map<nat, Hit> {
    if hits == [] then map[]
    else
      var first, last := FirstByID(hits[..|hits| - 1]), hits[|hits| - 1];
      if last.id in first then first else first[last.id := last]
  }

  /** The eligible ones of the first hits of `ids`. */
  function KeepHits(ids: seq<nat>, first: map<nat, Hit>, items: map<nat, Item>, memoryKind: string): seq<Hit> {
    if ids == [] then []
    else
      var id := ids[|ids| - 1];
      KeepHits(ids[..|ids| - 1], first, items, memoryKind)
      + if id in first && id in items && CandidateEligible(first[id], items[id], memoryKind) then [first[id]] else []
  }

  function Candidates(hits: seq<Hit>, items: map<nat, Item>, memoryKind: string): seq<Hit> {
    KeepHits(FirstSeen(hits), FirstByID(hits), items, memoryKind)
  }

  function FinalQueryFetch(ranking: seq<Hit>, items: map<nat, Item>, memoryKind: string, perQueryLimit: nat, fetchLimit: nat): (r: nat)
    requires 0 < fetchLimit <= MaxOverfetch
    ensures fetchLimit <= r <= MaxOverfetch
    ensures |Candidates(SearchMemoryVectors(ranking, r), items, memoryKind)| >= perQueryLimit || |ranking| < r || r == MaxOverfetch
    decreases MaxOverfetch - fetchLimit
  {
    var next := Min(fetchLimit * 2, MaxOverfetch);
    if |Candidates(SearchMemoryVectors(ranking, fetchLimit), items, memoryKind)| >= perQueryLimit
       || |ranking| < fetchLimit || next == fetchLimit
    then fetchLimit
    else FinalQueryFetch(ranking, items, memoryKind, perQueryLimit, next)
  }

  /** The hits that one query ranks: rank `i + 1` for the hit at `i`. */
  function Ranked(ranking: seq<Hit>, items: map<nat, Item>, memoryKind: string, perQueryLimit: nat): seq<Hit> {
    var fetched := FinalQueryFetch(ranking, items, memoryKind, perQueryLimit, FirstFetch(perQueryLimit));
    Take(Candidates(SearchMemoryVectors(ranking, fetched), items, memoryKind), perQueryLimit)
  }

  lemma {:induction false} FirstMembers(hits: seq<Hit>)
    ensures forall id :: id in FirstSeen(hits) <==> id in FirstByID(hits)
    ensures forall id | id in FirstByID(hits) :: FirstByID(hits)[id].id == id
  {
    if hits != [] {
      FirstMembers(hits[..|hits| - 1]);
    }
  }

  lemma FirstNext(hits: seq<Hit>, n: nat)
    requires n < |hits|
    ensures hits[n].id in FirstByID(hits[..n]) ==>
              FirstByID(hits[..n + 1]) == FirstByID(hits[..n]) && FirstSeen(hits[..n + 1]) == FirstSeen(hits[..n])
    ensures hits[n].id !in FirstByID(hits[..n]) ==>
              && FirstByID(hits[..n + 1]) == FirstByID(hits[..n])[hits[n].id := hits[n]]
              && FirstSeen(hits[..n + 1]) == FirstSeen(hits[..n]) + [hits[n].id]
  {
    assert hits[..n + 1][..n] == hits[..n] && hits[..n + 1][n] == hits[n];
    FirstMembers(hits[..n]);
  }

  lemma {:induction false} FirstKnown(hits: seq<Hit>, i: nat)
    requires i < |hits|
    ensures hits[i].id in FirstByID(hits)
  {
    var front := hits[..|hits| - 1];
    if i < |front| {
      FirstKnown(front, i);
      assert front[i] == hits[i];
    }
  }

  /** Merges the fetched hits, of which the first ones, `merged`, were merged before. */
  method MergeFirst(hits: seq<Hit>, ghost merged: seq<Hit>, first0: map<nat, Hit>, order0: seq<nat>)
    returns (qBestByID: map<nat, Hit>, qOrder: seq<nat>)
    requires merged <= hits && first0 == FirstByID(merged) && order0 == FirstSeen(merged)
    ensures qBestByID == FirstByID(hits) && qOrder == FirstSeen(hits)
  {
    ghost var known: nat := |merged|;
    assert merged == hits[..known];
    qBestByID, qOrder := first0, order0;
    ghost var n: nat := known;
    hide FirstByID, FirstSeen;
    for i := 0 to |hits|
      invariant known <= n <= |hits| && n == if i < known then known else i
      invariant qBestByID == FirstByID(hits[..n]) && qOrder == FirstSeen(hits[..n])
    {
      if i < known {
        FirstKnown(hits[..known], i);
        assert hits[..known][i] == hits[i];
      } else {
        FirstNext(hits, n);
        n := n + 1;
      }
      if hits[i].id !in qBestByID {
        qBestByID := qBestByID[hits[i].id := hits[i]];
        qOrder := qOrder + [hits[i].id];
      }
    }
    assert hits[..|hits|] == hits;
  }

  method CountEligible(qOrder: seq<nat>, qBestByID: map<nat, Hit>, items: map<nat, Item>, memoryKind: string)
    returns (eligibleCount: nat)
    requires forall id | id in qOrder :: id in qBestByID
    ensures eligibleCount == |KeepHits(qOrder, qBestByID, items, memoryKind)|
  {
    eligibleCount := 0;
    for i := 0 to |qOrder|
      invariant eligibleCount == |KeepHits(qOrder[..i], qBestByID, items, memoryKind)|
    {
      var id := qOrder[i];
      assert qOrder[..i + 1][..i] == qOrder[..i];
      if id !in items {
        continue;
      }
      if CandidateEligible(qBestByID[id], items[id], memoryKind) {
        eligibleCount := eligibleCount + 1;
      }
    }
    assert qOrder[..|qOrder|] == qOrder;
  }

  lemma QueryFetchStep(ranking: seq<Hit>, items: map<nat, Item>, memoryKind: string, perQueryLimit: nat, fetchLimit: nat)
    requires 0 < fetchLimit <= MaxOverfetch
    ensures var next := Min(fetchLimit * 2, MaxOverfetch);
            && 0 < next <= MaxOverfetch && fetchLimit <= next
            && FinalQueryFetch(ranking, items, memoryKind, perQueryLimit, fetchLimit) ==
               (if |Candidates(SearchMemoryVectors(ranking, fetchLimit), items, memoryKind)| >= perQueryLimit
                   || |ranking| < fetchLimit || next == fetchLimit
                then fetchLimit else FinalQueryFetch(ranking, items, memoryKind, perQueryLimit, next))
  {
  }

  lemma CandidatesAre(hits: seq<Hit>, items: map<nat, Item>, memoryKind: string)
    ensures Candidates(hits, items, memoryKind) == KeepHits(FirstSeen(hits), FirstByID(hits), items, memoryKind)
    ensures forall id | id in FirstSeen(hits) :: id in FirstByID(hits)
  {
    FirstMembers(hits);
  }

  /** The overfetch loop of one query. */
  method FetchQuery(ranking: seq<Hit>, items: map<nat, Item>, memoryKind: string, perQueryLimit: nat)
    returns (qBestByID: map<nat, Hit>, qOrder: seq<nat>)
    ensures var fetched := FinalQueryFetch(ranking, items, memoryKind, perQueryLimit, FirstFetch(perQueryLimit));
            && qBestByID == FirstByID(SearchMemoryVectors(ranking, fetched))
            && qOrder == FirstSeen(SearchMemoryVectors(ranking, fetched))
  {
    var qFetchLimit: nat := perQueryLimit * 4;
    if qFetchLimit < perQueryLimit + 10 {
      qFetchLimit := perQueryLimit + 10;
    }
    if qFetchLimit > MaxOverfetch {
      qFetchLimit := MaxOverfetch;
    }
    qBestByID, qOrder := map[], [];
    ghost var merged: seq<Hit> := [];
    ghost var fetched: nat := FinalQueryFetch(ranking, items, memoryKind, perQueryLimit, qFetchLimit);
    assert qFetchLimit == FirstFetch(perQueryLimit);
    hide *;
    while true
      invariant 0 < qFetchLimit <= MaxOverfetch && merged <= SearchMemoryVectors(ranking, qFetchLimit)
      invariant qBestByID == FirstByID(merged) && qOrder == FirstSeen(merged)
      invariant FinalQueryFetch(ranking, items, memoryKind, perQueryLimit, qFetchLimit) == fetched
      decreases MaxOverfetch - qFetchLimit
    {
      var hits := SearchMemoryVectors(ranking, qFetchLimit);
      QueryFetchStep(ranking, items, memoryKind, perQueryLimit, qFetchLimit);
      FetchedPrefix(ranking, qFetchLimit, Min(qFetchLimit * 2, MaxOverfetch));
      if |hits| == 0 {
        break;
      }
      qBestByID, qOrder := MergeFirst(hits, merged, qBestByID, qOrder);
      merged := hits;
      CandidatesAre(hits, items, memoryKind);
      var eligibleCount := CountEligible(qOrder, qBestByID, items, memoryKind);
      var prevQFetchLimit := qFetchLimit;
      if eligibleCount >= perQueryLimit || |hits| < qFetchLimit {
        break;
      }
      qFetchLimit := Min(qFetchLimit * 2, MaxOverfetch);
      if qFetchLimit == prevQFetchLimit {
        break;
      }
    }
  }

  // ---- The pool -------------------------------------------------------------------------------------

  /** What the fusion knows of a memory: its fused score, its best raw score, the purposes of the
      queries that ranked it, its place in the order of first ranking, and its first ranked hit. */
  datatype Entry = Entry(score: real, best: real, purposes: seq<string>, firstSeen: nat, hit: Hit)

  datatype Pool = Pool(entries: map<nat, Entry>, order: seq<nat>)

  const RrfK := 60.0

  function Share(rank: nat): (r: real)
    ensures r > 0.0
  {
    1.0 / (RrfK + rank as real)
  }

  function AddHit(p: Pool, hit: Hit, rank: nat, purpose: string): Pool {
    var known := hit.id in p.entries;
    var e := if known then p.entries[hit.id] else Entry(0.0, 0.0, [], |p.order|, hit);
    Pool(p.entries[hit.id := e.(score := e.score + Share(rank),
                                best := if hit.score > e.best then hit.score else e.best,
                                purposes := if purpose in e.purposes then e.purposes else e.purposes + [purpose])],
         if known then p.order else p.order + [hit.id])
  }

  function AddList(p: Pool, list: seq<Hit>, purpose: string): Pool {
    if list == [] then p
    else AddHit(AddList(p, list[..|list| - 1], purpose), list[|list| - 1], |list|, purpose)
  }

  /** The pool after the queries with these ranked hits and purposes. */
  function Fuse(lists: seq<seq<Hit>>, purposes: seq<string>): Pool
    requires |lists| == |purposes|
  {
    if lists == [] then Pool(map[], [])
    else AddList(Fuse(lists[..|lists| - 1], purposes[..|lists| - 1]), lists[|lists| - 1], purposes[|lists| - 1])
  }

  method AddQuery(p: Pool, ranking: seq<Hit>, purpose: string, items: map<nat, Item>, memoryKind: string, perQueryLimit: nat)
    returns (r: Pool)
    ensures r == AddList(p, Ranked(ranking, items, memoryKind, perQueryLimit), purpose)
  {
    var qBestByID, qOrder := FetchQuery(ranking, items, memoryKind, perQueryLimit);
    ghost var fetched := FinalQueryFetch(ranking, items, memoryKind, perQueryLimit, FirstFetch(perQueryLimit));
    CandidatesAre(SearchMemoryVectors(ranking, fetched), items, memoryKind);
    r := RankHits(p, qOrder, qBestByID, purpose, items, memoryKind, perQueryLimit);
  }

  lemma KeepHitsNext(ids: seq<nat>, n: nat, first: map<nat, Hit>, items: map<nat, Item>, memoryKind: string)
    requires n < |ids| && ids[n] in first
    ensures var kept, hit := KeepHits(ids[..n], first, items, memoryKind), first[ids[n]];
            KeepHits(ids[..n + 1], first, items, memoryKind) ==
            if ids[n] in items && CandidateEligible(hit, items[ids[n]], memoryKind) then kept + [hit] else kept
    ensures KeepHits(ids[..n], first, items, memoryKind) <= KeepHits(ids, first, items, memoryKind)
  {
    assert ids[..n + 1][..n] == ids[..n] && ids[..n + 1][n] == ids[n];
    KeepHitsGrows(ids, n, first, items, memoryKind);
  }

  lemma AddListNext(p: Pool, list: seq<Hit>, hit: Hit, purpose: string)
    ensures AddList(p, list + [hit], purpose) == AddHit(AddList(p, list, purpose), hit, |list| + 1, purpose)
  {
    assert (list + [hit])[..|list|] == list;
  }

  /** Gives the eligible hits ranks 1, 2, ... up to `perQueryLimit`. */
  method RankHits(p: Pool, qOrder: seq<nat>, qBestByID: map<nat, Hit>, purpose: string, items: map<nat, Item>,
                  memoryKind: string, perQueryLimit: nat)
    returns (r: Pool)
    requires forall id | id in qOrder :: id in qBestByID
    ensures r == AddList(p, Take(KeepHits(qOrder, qBestByID, items, memoryKind), perQueryLimit), purpose)
  {
    r := p;
    var rank: nat := 1;
    ghost var all, kept: seq<Hit> := KeepHits(qOrder, qBestByID, items, memoryKind), [];
    assert qOrder[..0] == [] && qOrder[..|qOrder|] == qOrder;
    TakeAll(all, perQueryLimit);
    hide KeepHits, AddList, AddHit, Take;
    for i := 0 to |qOrder|
      invariant rank <= perQueryLimit + 1 && |kept| == rank - 1
      invariant kept == KeepHits(qOrder[..i], qBestByID, items, memoryKind)
      invariant r == AddList(p, kept, purpose)
    {
      var id := qOrder[i];
      KeepHitsNext(qOrder, i, qBestByID, items, memoryKind);
      if rank > perQueryLimit {
        TakePrefixHits(kept, all, perQueryLimit);
        return;
      }
      if id !in items {
        continue;
      }
      var hit := qBestByID[id];
      if !CandidateEligible(hit, items[id], memoryKind) {
        continue;
      }
      AddListNext(p, kept, hit, purpose);
      r := AddHit(r, hit, rank, purpose);
      kept := kept + [hit];
      rank := rank + 1;
    }
  }

  lemma TakeAll(all: seq<Hit>, limit: nat)
    ensures |all| <= limit ==> Take(all, limit) == all
  {
  }

  lemma TakePrefixHits(kept: seq<Hit>, all: seq<Hit>, limit: nat)
    requires kept <= all && |kept| == limit
    ensures Take(all, limit) == kept
  {
  }

  lemma {:induction false} KeepHitsGrows(ids: seq<nat>, n: nat, first: map<nat, Hit>, items: map<nat, Item>, memoryKind: string)
    requires n <= |ids|
    ensures KeepHits(ids[..n], first, items, memoryKind) <= KeepHits(ids, first, items, memoryKind)
  {
    if n < |ids| {
      KeepHitsGrows(ids[..|ids| - 1], n, first, items, memoryKind);
      assert ids[..|ids| - 1][..n] == ids[..n];
    } else {
      assert ids[..n] == ids;
    }
  }

  // ---- The answer ---------------------------------------------------------------------------------------

  datatype Fused = Fused(id: nat, score: real, matchedQueries: seq<string>)

  /** `a` comes before `b`: by fused score, then best raw score, then order of first ranking. */
  predicate Before(p: Pool, a: nat, b: nat) {
    && a in p.entries && b in p.entries
    && var x, y := p.entries[a], p.entries[b];
       x.score > y.score || (x.score == y.score && (x.best > y.best || (x.best == y.best && x.firstSeen < y.firstSeen)))
  }

  function SortedIDs(p: Pool): seq<nat> {
    StableSort(p.order, (a, b) => Before(p, a, b))
  }

  /** The final guard, with the data of the first ranked hit. */
  predicate Guard(p: Pool, id: nat, items: map<nat, Item>, memoryKind: string) {
    id in p.entries && id in items && CandidateEligible(p.entries[id].hit, items[id], memoryKind)
  }

  function Assembled(ids: seq<nat>, p: Pool, items: map<nat, Item>, memoryKind: string): seq<Fused> {
    if ids == [] then []
    else
      var id := ids[|ids| - 1];
      Assembled(ids[..|ids| - 1], p, items, memoryKind)
      + if Guard(p, id, items, memoryKind) then [Fused(id, p.entries[id].score, p.entries[id].purposes)] else []
  }

  function Answer(p: Pool, items: map<nat, Item>, memoryKind: string, limit: nat): seq<Fused> {
    Take(Assembled(SortedIDs(p), p, items, memoryKind), limit)
  }

  function RankLists(queries: seq<Query>, items: map<nat, Item>, memoryKind: string, perQueryLimit: nat): seq<seq<Hit>> {
    seq(|queries|, i requires 0 <= i < |queries| => Ranked(queries[i].ranking, items, memoryKind, perQueryLimit))
  }

  function Purposes(queries: seq<Query>): seq<string> {
    seq(|queries|, i requires 0 <= i < |queries| => queries[i].purpose)
  }

  function PoolOf(queries: seq<Query>, items: map<nat, Item>, memoryKind: string, perQueryLimit: nat): Pool {
    Fuse(RankLists(queries, items, memoryKind, perQueryLimit), Purposes(queries))
  }

  lemma PoolNext(queries: seq<Query>, n: nat, items: map<nat, Item>, memoryKind: string, perQueryLimit: nat)
    requires n < |queries|
    ensures PoolOf(queries[..n + 1], items, memoryKind, perQueryLimit) ==
            AddList(PoolOf(queries[..n], items, memoryKind, perQueryLimit),
                    Ranked(queries[n].ranking, items, memoryKind, perQueryLimit), queries[n].purpose)
  {
    var lists := RankLists(queries[..n + 1], items, memoryKind, perQueryLimit);
    assert lists[..n] == RankLists(queries[..n], items, memoryKind, perQueryLimit);
    assert Purposes(queries[..n + 1])[..n] == Purposes(queries[..n]);
  }

  method AssembleResults(ids: seq<nat>, p: Pool, items: map<nat, Item>, memoryKind: string, limit: nat)
    returns (results: seq<Fused>)
    ensures results == Take(Assembled(ids, p, items, memoryKind), limit)
  {
    results := [];
    for i := 0 to |ids|
      invariant results == Assembled(ids[..i], p, items, memoryKind) && |results| <= limit
    {
      AssembledGrows(ids, i, p, items, memoryKind);
      if |results| >= limit {
        return;
      }
      var id := ids[i];
      assert ids[..i + 1][..i] == ids[..i];
      if !Guard(p, id, items, memoryKind) {
        continue;
      }
      results := results + [Fused(id, p.entries[id].score, p.entries[id].purposes)];
    }
    assert ids[..|ids|] == ids;
  }

  lemma {:induction false} AssembledGrows(ids: seq<nat>, n: nat, p: Pool, items: map<nat, Item>, memoryKind: string)
    requires n <= |ids|
    ensures Assembled(ids[..n], p, items, memoryKind) <= Assembled(ids, p, items, memoryKind)
  {
    if n < |ids| {
      AssembledGrows(ids[..|ids| - 1], n, p, items, memoryKind);
      assert ids[..|ids| - 1][..n] == ids[..n];
    } else {
      assert ids[..n] == ids;
    }
  }

  method MultiQuerySearch(queries: seq<Query>, items: map<nat, Item>, memoryKind: string, perQueryLimit: nat, limit: nat)
    returns (results: seq<Fused>)
    ensures results == Answer(PoolOf(queries, items, memoryKind, perQueryLimit), items, memoryKind, limit)
  {
    var p := Pool(map[], []);
    for qi := 0 to |queries|
      invariant p == PoolOf(queries[..qi], items, memoryKind, perQueryLimit)
    {
      PoolNext(queries, qi, items, memoryKind, perQueryLimit);
      p := AddQuery(p, queries[qi].ranking, queries[qi].purpose, items, memoryKind, perQueryLimit);
    }
    assert queries[..|queries|] == queries;
    var seenOrder := SortedIDs(p);
    results := AssembleResults(seenOrder, p, items, memoryKind, limit);
  }
}
