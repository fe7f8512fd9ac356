/** What the fused ranking means: ranks, scores, order and dominance
    (internal/grpc/server.go:5693-5793). */
module FusionOrder {
  import opened Wrappers
  import opened Sorting
  import opened MemorySearch
  import opened RankFusion

  // ---- Ranks ----------------------------------------------------------------------------------------------

  ghost predicate DistinctHits(list: seq<Hit>) {
    forall i, j | 0 <= i < j < |list| :: list[i].id != list[j].id
  }

  lemma {:induction false} SeenDistinct(hits: seq<Hit>)
    ensures Distinct(FirstSeen(hits))
  {
    DedupMembers(hits);
  }

  lemma {:induction false} KeepHitsFrom(ids: seq<nat>, first: map<nat, Hit>, items: map<nat, Item>, memoryKind: string)
    requires Distinct(ids) && forall id | id in first :: first[id].id == id
    ensures DistinctHits(KeepHits(ids, first, items, memoryKind))
    ensures forall h | h in KeepHits(ids, first, items, memoryKind) ::
              h.id in ids && h.id in items && CandidateEligible(h, items[h.id], memoryKind)
  {
    if ids != [] {
      var front, last := ids[..|ids| - 1], ids[|ids| - 1];
      KeepHitsFrom(front, first, items, memoryKind);
      var kept := KeepHits(front, first, items, memoryKind);
      forall i | 0 <= i < |kept| ensures kept[i].id != last {
        assert kept[i] in kept;
      }
    }
  }

  /** Within one query each memory has at most one rank, no rank exceeds the limit, and everything
      ranked is eligible. */
  lemma RankedOnce(ranking: seq<Hit>, items: map<nat, Item>, memoryKind: string, perQueryLimit: nat)
    ensures var list := Ranked(ranking, items, memoryKind, perQueryLimit);
            && DistinctHits(list) && |list| <= perQueryLimit
            && forall h | h in list :: h.id in items && CandidateEligible(h, items[h.id], memoryKind)
  {
    var fetched := FinalQueryFetch(ranking, items, memoryKind, perQueryLimit, FirstFetch(perQueryLimit));
    var hits := SearchMemoryVectors(ranking, fetched);
    SeenDistinct(hits);
    FirstMembers(hits);
    KeepHitsFrom(FirstSeen(hits), FirstByID(hits), items, memoryKind);
  }

  /** The reference for one query: the first hit of each memory, if it is eligible, in ranking order. */
  function FreshHits(hits: seq<Hit>, items: map<nat, Item>, memoryKind: string): seq<Hit> {
    if hits == [] then []
    else
      var front, last := hits[..|hits| - 1], hits[|hits| - 1];
      FreshHits(front, items, memoryKind)
      + if last.id !in FirstSeen(front) && last.id in items && CandidateEligible(last, items[last.id], memoryKind)
        then [last] else []
  }

  lemma {:induction false} KeepHitsSame(ids: seq<nat>, first: map<nat, Hit>, more: map<nat, Hit>, items: map<nat, Item>, memoryKind: string)
    requires forall id | id in ids :: id in first && id in more && more[id] == first[id]
    ensures KeepHits(ids, first, items, memoryKind) == KeepHits(ids, more, items, memoryKind)
  {
    if ids != [] {
      assert ids[|ids| - 1] in ids;
      KeepHitsSame(ids[..|ids| - 1], first, more, items, memoryKind);
    }
  }

  lemma {:induction false} CandidatesAreFresh(hits: seq<Hit>, items: map<nat, Item>, memoryKind: string)
    ensures Candidates(hits, items, memoryKind) == FreshHits(hits, items, memoryKind)
  {
    if hits != [] {
      var front, last := hits[..|hits| - 1], hits[|hits| - 1];
      var seen, first := FirstSeen(front), FirstByID(front);
      CandidatesAreFresh(front, items, memoryKind);
      FirstMembers(front);
      if last.id !in first {
        KeepHitsSame(seen, first, first[last.id := last], items, memoryKind);
        assert (seen + [last.id])[..|seen|] == seen;
      }
    }
  }

  lemma {:induction false} FreshGrows(hits: seq<Hit>, n: nat, items: map<nat, Item>, memoryKind: string)
    requires n <= |hits|
    ensures FreshHits(hits[..n], items, memoryKind) <= FreshHits(hits, items, memoryKind)
  {
    if n < |hits| {
      FreshGrows(hits[..|hits| - 1], n, items, memoryKind);
      assert hits[..|hits| - 1][..n] == hits[..n];
    } else {
      assert hits[..n] == hits;
    }
  }

  /** A query ranks the first eligible memories of its whole ranking, exactly if the hits within the cap
      hold enough of them, or all. */
  lemma RankedExact(ranking: seq<Hit>, items: map<nat, Item>, memoryKind: string, perQueryLimit: nat)
    ensures var full := FreshHits(ranking, items, memoryKind);
            var capped := FreshHits(SearchMemoryVectors(ranking, MaxOverfetch), items, memoryKind);
            Ranked(ranking, items, memoryKind, perQueryLimit) == Take(full, perQueryLimit) <==>
            |capped| >= perQueryLimit || |capped| == |full|
  {
    var fetched := FinalQueryFetch(ranking, items, memoryKind, perQueryLimit, FirstFetch(perQueryLimit));
    var n, m := Min(fetched, |ranking|), Min(MaxOverfetch, |ranking|);
    CandidatesAreFresh(ranking[..n], items, memoryKind);
    FreshGrows(ranking, n, items, memoryKind);
    FreshGrows(ranking, m, items, memoryKind);
    FreshGrows(ranking[..m], n, items, memoryKind);
    assert ranking[..m][..n] == ranking[..n];
    assert n == |ranking| ==> ranking[..n] == ranking;
    TakePrefix(FreshHits(ranking[..n], items, memoryKind), FreshHits(ranking, items, memoryKind), perQueryLimit);
  }

  // ---- Fused scores ------------------------------------------------------------------------------------------

  /** What one ranked list contributes to a memory. */
  function Points(list: seq<Hit>, id: nat): real {
    if list == [] then 0.0
    else Points(list[..|list| - 1], id) + if list[|list| - 1].id == id then Share(|list|) else 0.0
  }

  function FusedScore(lists: seq<seq<Hit>>, id: nat): real {
    if lists == [] then 0.0 else FusedScore(lists[..|lists| - 1], id) + Points(lists[|lists| - 1], id)
  }

  ghost predicate RankedIn(list: seq<Hit>, id: nat) {
    exists i :: 0 <= i < |list| && list[i].id == id
  }

  lemma {:induction false} PointsAbsent(list: seq<Hit>, id: nat)
    requires forall i | 0 <= i < |list| :: list[i].id != id
    ensures Points(list, id) == 0.0
  {
    if list != [] {
      PointsAbsent(list[..|list| - 1], id);
    }
  }

  /** A ranked memory gets exactly one over sixty plus its rank, which is one more than its place. */
  lemma {:induction false} PointsAt(list: seq<Hit>, i: nat)
    requires DistinctHits(list) && i < |list|
    ensures Points(list, list[i].id) == 1.0 / (60.0 + (i + 1) as real)
  {
    var front := list[..|list| - 1];
    if i < |front| {
      PointsAt(front, i);
      assert front[i] == list[i];
    } else {
      PointsAbsent(front, list[i].id);
    }
  }

  lemma ShareDecreases(i: nat, j: nat)
    requires i < j
    ensures 1.0 / (60.0 + i as real) > 1.0 / (60.0 + j as real)
  {
  }

  /** The pool's order lists its memories, and its entries know their places in it. */
  ghost predicate ValidPool(p: Pool) {
    && (forall id :: id in p.order <==> id in p.entries)
    && (forall i | 0 <= i < |p.order| :: p.order[i] in p.entries && p.entries[p.order[i]].firstSeen == i)
  }

  /** The memory's score in the pool, or nothing. */
  function ScoreIn(p: Pool, id: nat): real {
    if id in p.entries then p.entries[id].score else 0.0
  }

  lemma AddHitFacts(p: Pool, hit: Hit, rank: nat, purpose: string)
    requires ValidPool(p)
    ensures var r := AddHit(p, hit, rank, purpose);
            && ValidPool(r)
            && (forall id :: id in r.entries <==> id in p.entries || id == hit.id)
            && (forall id :: ScoreIn(r, id) == ScoreIn(p, id) + if id == hit.id then Share(rank) else 0.0)
            && (forall id | id in p.entries :: r.entries[id].hit == p.entries[id].hit)
            && r.entries[hit.id].hit == if hit.id in p.entries then p.entries[hit.id].hit else hit
  {
    hide Share;
    var r := AddHit(p, hit, rank, purpose);
    forall i | 0 <= i < |r.order| ensures r.order[i] in r.entries && r.entries[r.order[i]].firstSeen == i {
      if i < |p.order| {
        assert r.order[i] == p.order[i];
        assert p.order[i] in p.order;
      }
    }
  }

  lemma RankedInLast(list: seq<Hit>, id: nat)
    requires list != []
    ensures RankedIn(list, id) <==> RankedIn(list[..|list| - 1], id) || list[|list| - 1].id == id
  {
    var front := list[..|list| - 1];
    if RankedIn(front, id) {
      var i :| 0 <= i < |front| && front[i].id == id;
      assert list[i].id == id;
    }
  }

  lemma {:induction false} AddListFacts(p: Pool, list: seq<Hit>, purpose: string)
    requires ValidPool(p)
    ensures var r := AddList(p, list, purpose);
            && ValidPool(r)
            && (forall id :: id in r.entries <==> id in p.entries || RankedIn(list, id))
            && (forall id :: ScoreIn(r, id) == ScoreIn(p, id) + Points(list, id))
  {
    if list != [] {
      var front, last := list[..|list| - 1], list[|list| - 1];
      AddListFacts(p, front, purpose);
      AddHitFacts(AddList(p, front, purpose), last, |list|, purpose);
      forall id ensures RankedIn(list, id) <==> RankedIn(front, id) || id == last.id {
        RankedInLast(list, id);
      }
      hide AddHit, Share, ValidPool, RankedIn, ScoreIn;
    }
  }

  lemma {:induction false} FuseFacts(lists: seq<seq<Hit>>, purposes: seq<string>)
    requires |lists| == |purposes|
    ensures var r := Fuse(lists, purposes);
            && ValidPool(r)
            && (forall id :: id in r.entries <==> RankedSomewhere(lists, id))
            && (forall id :: ScoreIn(r, id) == FusedScore(lists, id))
  {
    if lists != [] {
      var front, last := lists[..|lists| - 1], lists[|lists| - 1];
      FuseFacts(front, purposes[..|lists| - 1]);
      AddListFacts(Fuse(front, purposes[..|lists| - 1]), last, purposes[|lists| - 1]);
      hide AddList;
      forall id ensures RankedSomewhere(lists, id) <==> RankedSomewhere(front, id) || RankedIn(last, id) {
        if RankedSomewhere(front, id) {
          var q :| 0 <= q < |front| && RankedIn(front[q], id);
          assert RankedIn(lists[q], id);
        }
        if RankedIn(last, id) {
          assert RankedIn(lists[|lists| - 1], id);
        }
      }
    }
  }

  ghost predicate RankedSomewhere(lists: seq<seq<Hit>>, id: nat) {
    exists q :: 0 <= q < |lists| && RankedIn(lists[q], id)
  }

  // ---- Best raw scores --------------------------------------------------------------------------------------

  /** All the ranked hits, query by query. */
  function AllRanked(lists: seq<seq<Hit>>): seq<Hit> {
    if lists == [] then [] else AllRanked(lists[..|lists| - 1]) + lists[|lists| - 1]
  }

  /** The best raw score is the largest score among the memory's ranked hits, or 0 if none is positive. */
  ghost predicate BestOf(e: Entry, id: nat, hits: seq<Hit>) {
    && e.best >= 0.0
    && (forall h | h in hits && h.id == id :: h.score <= e.best)
    && (e.best == 0.0 || exists h | h in hits :: h.id == id && h.score == e.best)
  }

  ghost predicate BestScores(p: Pool, hits: seq<Hit>) {
    && (forall id | id in p.entries :: BestOf(p.entries[id], id, hits))
    && (forall h | h in hits :: h.id in p.entries)
  }

  lemma BestAfterHit(p: Pool, hits: seq<Hit>, hit: Hit, rank: nat, purpose: string)
    requires BestScores(p, hits)
    ensures BestScores(AddHit(p, hit, rank, purpose), hits + [hit])
  {
    var r := AddHit(p, hit, rank, purpose);
    assert hit in hits + [hit];
    forall id | id in r.entries ensures BestOf(r.entries[id], id, hits + [hit]) {
      if id in p.entries && p.entries[id].best != 0.0 {
        var h :| h in hits && h.id == id && h.score == p.entries[id].best;
        assert h in hits + [hit];
      }
    }
  }

  lemma AddListLast(p: Pool, list: seq<Hit>, purpose: string)
    requires list != []
    ensures AddList(p, list, purpose) ==
            AddHit(AddList(p, list[..|list| - 1], purpose), list[|list| - 1], |list|, purpose)
  {
  }

  lemma AppendLast(hits: seq<Hit>, list: seq<Hit>)
    requires list != []
    ensures hits + list[..|list| - 1] + [list[|list| - 1]] == hits + list
  {
  }

  lemma {:induction false} BestAfterList(p: Pool, hits: seq<Hit>, list: seq<Hit>, purpose: string)
    requires BestScores(p, hits)
    ensures BestScores(AddList(p, list, purpose), hits + list)
  {
    if list == [] {
      assert hits + list == hits;
    } else {
      hide *;
      var front, last := list[..|list| - 1], list[|list| - 1];
      BestAfterList(p, hits, front, purpose);
      BestAfterHit(AddList(p, front, purpose), hits + front, last, |list|, purpose);
      AddListLast(p, list, purpose);
      AppendLast(hits, list);
    }
  }

  lemma {:induction false} BestIsLargest(lists: seq<seq<Hit>>, purposes: seq<string>)
    requires |lists| == |purposes|
    ensures BestScores(Fuse(lists, purposes), AllRanked(lists))
  {
    if lists != [] {
      BestIsLargest(lists[..|lists| - 1], purposes[..|lists| - 1]);
      BestAfterList(Fuse(lists[..|lists| - 1], purposes[..|lists| - 1]), AllRanked(lists[..|lists| - 1]),
                    lists[|lists| - 1], purposes[|lists| - 1]);
    }
  }

  // ---- The final guard ---------------------------------------------------------------------------------------

  ghost predicate AllEligible(list: seq<Hit>, items: map<nat, Item>, memoryKind: string) {
    forall i | 0 <= i < |list| :: list[i].id in items && CandidateEligible(list[i], items[list[i].id], memoryKind)
  }

  ghost predicate Guarded(p: Pool, items: map<nat, Item>, memoryKind: string) {
    forall id | id in p.entries :: Guard(p, id, items, memoryKind)
  }

  lemma {:induction false} AddListGuarded(p: Pool, list: seq<Hit>, purpose: string, items: map<nat, Item>, memoryKind: string)
    requires ValidPool(p) && Guarded(p, items, memoryKind) && AllEligible(list, items, memoryKind)
    ensures Guarded(AddList(p, list, purpose), items, memoryKind)
  {
    if list != [] {
      var front, last := list[..|list| - 1], list[|list| - 1];
      AddListGuarded(p, front, purpose, items, memoryKind);
      AddListFacts(p, front, purpose);
      AddHitFacts(AddList(p, front, purpose), last, |list|, purpose);
      hide AddHit;
    }
  }

  lemma {:induction false} FuseGuarded(lists: seq<seq<Hit>>, purposes: seq<string>, items: map<nat, Item>, memoryKind: string)
    requires |lists| == |purposes| && forall q | 0 <= q < |lists| :: AllEligible(lists[q], items, memoryKind)
    ensures Guarded(Fuse(lists, purposes), items, memoryKind)
  {
    if lists != [] {
      var front := lists[..|lists| - 1];
      FuseGuarded(front, purposes[..|lists| - 1], items, memoryKind);
      FuseFacts(front, purposes[..|lists| - 1]);
      AddListGuarded(Fuse(front, purposes[..|lists| - 1]), lists[|lists| - 1], purposes[|lists| - 1], items, memoryKind);
    }
  }

  /** Under a fixed snapshot the final guard drops nothing that was ranked. */
  lemma GuardDropsNothing(queries: seq<Query>, items: map<nat, Item>, memoryKind: string, perQueryLimit: nat)
    ensures Guarded(PoolOf(queries, items, memoryKind, perQueryLimit), items, memoryKind)
  {
    var lists := RankLists(queries, items, memoryKind, perQueryLimit);
    forall q | 0 <= q < |lists| ensures AllEligible(lists[q], items, memoryKind) {
      RankedOnce(queries[q].ranking, items, memoryKind, perQueryLimit);
      forall i | 0 <= i < |lists[q]| ensures lists[q][i] in lists[q] {}
    }
    FuseGuarded(lists, Purposes(queries), items, memoryKind);
  }

  // ---- The order ------------------------------------------------------------------------------------------------

  /** On the memories of a pool, `Before` is a strict total order. */
  lemma BeforeIsTotal(p: Pool, a: nat, b: nat)
    requires ValidPool(p) && a in p.entries && b in p.entries && a != b
    ensures Before(p, a, b) <==> !Before(p, b, a)
  {
    assert a in p.order && b in p.order;
    var i :| 0 <= i < |p.order| && p.order[i] == a;
    var j :| 0 <= j < |p.order| && p.order[j] == b;
  }

  lemma SortedFacts(p: Pool)
    requires ValidPool(p)
    ensures |SortedIDs(p)| == |p.order|
    ensures forall id :: id in SortedIDs(p) <==> id in p.entries
    ensures Distinct(SortedIDs(p))
    ensures forall i, j | 0 <= i < j < |SortedIDs(p)| :: Before(p, SortedIDs(p)[i], SortedIDs(p)[j])
  {
    var less, s := (a, b) => Before(p, a, b), SortedIDs(p);
    SortPermutes(p.order, less);
    assert Orders(less, p.order);
    SortSorts(p.order, less, p.order);
    assert Distinct(p.order);
    SameMultisetDistinct(p.order, s);
    forall i, j | 0 <= i < j < |s| ensures Before(p, s[i], s[j]) {
      assert !less(s[j], s[i]);
      assert s[i] in s && s[j] in s;
      BeforeIsTotal(p, s[i], s[j]);
    }
  }

  /** `answer` lists the memories `ids` with their scores in the pool. */
  ghost predicate Lists(answer: seq<Fused>, ids: seq<nat>, p: Pool) {
    && |answer| <= |ids|
    && forall i | 0 <= i < |answer| :: answer[i].id == ids[i] && ids[i] in p.entries && answer[i].score == p.entries[ids[i]].score
  }

  lemma {:induction false} AssembledAll(ids: seq<nat>, p: Pool, items: map<nat, Item>, memoryKind: string)
    requires Guarded(p, items, memoryKind) && forall id | id in ids :: id in p.entries
    ensures var r := Assembled(ids, p, items, memoryKind); Lists(r, ids, p) && |r| == |ids|
  {
    if ids != [] {
      assert ids[|ids| - 1] in ids;
      AssembledAll(ids[..|ids| - 1], p, items, memoryKind);
    }
  }

  ghost predicate Answered(answer: seq<Fused>, id: nat) {
    exists i :: 0 <= i < |answer| && answer[i].id == id
  }

  lemma TakenLists(all: seq<Fused>, ids: seq<nat>, p: Pool, limit: nat)
    requires Lists(all, ids, p) && |all| == |ids|
    ensures Lists(Take(all, limit), ids, p) && |Take(all, limit)| == Min(limit, |ids|)
  {
  }

  /** The answer is the beginning of the sorted pool. */
  lemma AnswerIsPrefix(p: Pool, items: map<nat, Item>, memoryKind: string, limit: nat)
    requires ValidPool(p) && Guarded(p, items, memoryKind)
    ensures var answer, s := Answer(p, items, memoryKind, limit), SortedIDs(p);
            Lists(answer, s, p) && |answer| == Min(limit, |s|) && |s| == |p.order|
  {
    SortedFacts(p);
    AssembledAll(SortedIDs(p), p, items, memoryKind);
    hide SortedIDs, Assembled, Guarded, ValidPool, Distinct, Before;
    TakenLists(Assembled(SortedIDs(p), p, items, memoryKind), SortedIDs(p), p, limit);
  }

  /** The answer is the beginning of the total order of all ranked memories: distinct, at most `limit`
      long, strictly ordered, and nothing left out precedes anything in it. */
  lemma AnswerOrder(p: Pool, items: map<nat, Item>, memoryKind: string, limit: nat)
    requires ValidPool(p) && Guarded(p, items, memoryKind)
    ensures var answer := Answer(p, items, memoryKind, limit);
            && |answer| == Min(limit, |p.order|)
            && (forall i, j | 0 <= i < j < |answer| :: Before(p, answer[i].id, answer[j].id) && answer[i].id != answer[j].id)
            && (forall i, id | 0 <= i < |answer| && id in p.entries && !Answered(answer, id) :: Before(p, answer[i].id, id))
  {
    var answer, s := Answer(p, items, memoryKind, limit), SortedIDs(p);
    AnswerIsPrefix(p, items, memoryKind, limit);
    SortedFacts(p);
    hide SortedIDs, Answer, Before, Guarded, ValidPool;
    forall k | 0 <= k < |answer| ensures Answered(answer, s[k]) {
      assert answer[k].id == s[k];
    }
    forall i, id | 0 <= i < |answer| && id in p.entries && !Answered(answer, id) ensures Before(p, answer[i].id, id) {
      assert id in s;
      var k :| 0 <= k < |s| && s[k] == id;
      assert k >= |answer|;
    }
  }

  /** Every answer is an eligible memory that some query ranked, with its fused score. */
  lemma AnswerScores(queries: seq<Query>, items: map<nat, Item>, memoryKind: string, perQueryLimit: nat, limit: nat, i: nat)
    requires i < |Answer(PoolOf(queries, items, memoryKind, perQueryLimit), items, memoryKind, limit)|
    ensures var p := PoolOf(queries, items, memoryKind, perQueryLimit);
            var lists := RankLists(queries, items, memoryKind, perQueryLimit);
            var x := Answer(p, items, memoryKind, limit)[i];
            && Guard(p, x.id, items, memoryKind)
            && RankedSomewhere(lists, x.id) && x.score == FusedScore(lists, x.id)
  {
    var p := PoolOf(queries, items, memoryKind, perQueryLimit);
    FuseFacts(RankLists(queries, items, memoryKind, perQueryLimit), Purposes(queries));
    GuardDropsNothing(queries, items, memoryKind, perQueryLimit);
    AnswerIsPrefix(p, items, memoryKind, limit);
    hide Fuse, SortedIDs, Answer, RankLists, RankedSomewhere, FusedScore;
    var id := Answer(p, items, memoryKind, limit)[i].id;
    assert ScoreIn(p, id) == p.entries[id].score;
  }

  // ---- Dominance ---------------------------------------------------------------------------------------------------

  /** Wherever `b` is ranked, `a` is ranked ahead of it. */
  ghost predicate AheadIn(list: seq<Hit>, a: nat, b: nat) {
    forall j | 0 <= j < |list| && list[j].id == b :: exists i :: 0 <= i < j && list[i].id == a
  }

  lemma PointsAhead(list: seq<Hit>, a: nat, b: nat)
    requires DistinctHits(list) && AheadIn(list, a, b)
    ensures if RankedIn(list, b) then Points(list, a) > Points(list, b) else Points(list, a) >= Points(list, b)
  {
    hide Points, Share;
    if RankedIn(list, b) {
      var j :| 0 <= j < |list| && list[j].id == b;
      var i :| 0 <= i < j && list[i].id == a;
      PointsAt(list, i);
      PointsAt(list, j);
      ShareDecreases(i + 1, j + 1);
    } else {
      PointsAbsent(list, b);
      PointsPositive(list, a);
    }
  }

  lemma {:induction false} PointsPositive(list: seq<Hit>, id: nat)
    ensures Points(list, id) >= 0.0
  {
    if list != [] {
      PointsPositive(list[..|list| - 1], id);
    }
  }

  lemma {:induction false} FusedAhead(lists: seq<seq<Hit>>, a: nat, b: nat)
    requires forall q | 0 <= q < |lists| :: DistinctHits(lists[q]) && AheadIn(lists[q], a, b)
    ensures FusedScore(lists, a) >= FusedScore(lists, b)
    ensures RankedSomewhere(lists, b) ==> FusedScore(lists, a) > FusedScore(lists, b) && RankedSomewhere(lists, a)
  {
    if lists != [] {
      var front, last := lists[..|lists| - 1], lists[|lists| - 1];
      FusedAhead(front, a, b);
      PointsAhead(last, a, b);
      if RankedSomewhere(lists, b) {
        var q :| 0 <= q < |lists| && RankedIn(lists[q], b);
        var j :| 0 <= j < |lists[q]| && lists[q][j].id == b;
        var i :| 0 <= i < j && lists[q][i].id == a;
        assert RankedIn(lists[q], a);
        if q < |front| {
          assert RankedIn(front[q], b);
        }
      }
    }
  }

  /** A memory that is ranked ahead of another in every query that ranks the other is answered first. */
  lemma Dominance(queries: seq<Query>, items: map<nat, Item>, memoryKind: string, perQueryLimit: nat, limit: nat,
                  a: nat, b: nat, j: nat)
    requires var lists := RankLists(queries, items, memoryKind, perQueryLimit);
             forall q | 0 <= q < |lists| :: AheadIn(lists[q], a, b)
    requires var answer := Answer(PoolOf(queries, items, memoryKind, perQueryLimit), items, memoryKind, limit);
             j < |answer| && answer[j].id == b
    ensures var answer := Answer(PoolOf(queries, items, memoryKind, perQueryLimit), items, memoryKind, limit);
            exists i :: 0 <= i < j && answer[i].id == a
  {
    var p := PoolOf(queries, items, memoryKind, perQueryLimit);
    var lists := RankLists(queries, items, memoryKind, perQueryLimit);
    var answer := Answer(p, items, memoryKind, limit);
    FuseFacts(lists, Purposes(queries));
    GuardDropsNothing(queries, items, memoryKind, perQueryLimit);
    AnswerIsPrefix(p, items, memoryKind, limit);
    forall q | 0 <= q < |lists| ensures DistinctHits(lists[q]) {
      RankedOnce(queries[q].ranking, items, memoryKind, perQueryLimit);
    }
    FusedAhead(lists, a, b);
    ScoreDecides(p, a, b);
    AnswerOrder(p, items, memoryKind, limit);
    hide *;
    OrderPlaces(p, answer, a, b, j);
  }

  lemma ScoreDecides(p: Pool, a: nat, b: nat)
    requires a in p.entries && b in p.entries && ScoreIn(p, a) > ScoreIn(p, b)
    ensures !Before(p, b, a)
  {
  }

  lemma OrderPlaces(p: Pool, answer: seq<Fused>, a: nat, b: nat, j: nat)
    requires j < |answer| && answer[j].id == b && a in p.entries && a != b && !Before(p, b, a)
    requires forall i, k | 0 <= i < k < |answer| :: Before(p, answer[i].id, answer[k].id)
    requires forall i, id | 0 <= i < |answer| && id in p.entries && !Answered(answer, id) :: Before(p, answer[i].id, id)
    ensures exists i :: 0 <= i < j && answer[i].id == a
  {
    hide Before;
    assert Answered(answer, a);
    var i :| 0 <= i < |answer| && answer[i].id == a;
    assert i < j || i == j || j < i;
  }
}
