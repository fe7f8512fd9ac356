/** The fused answer in terms of the ranked hits: which memories, in which order, and matched by which queries
    (internal/grpc/server.go:5693-5794). */
module FusionAnswers {
  import opened Wrappers
  import opened MemorySearch
  import opened RankFusion
  import opened FusionOrder
  import opened SearchAnswers

  // ---- Matched queries ---------------------------------------------------------------------------------

  /** Query `q` has this purpose and ranks the memory. */
  ghost predicate RanksFor(lists: seq<seq<Hit>>, purposes: seq<string>, q: nat, id: nat, purpose: string) {
    q < |lists| && q < |purposes| && RankedIn(lists[q], id) && purposes[q] == purpose
  }

  /** Some query ranks the memory for `a` before any does for `b`. */
  ghost predicate RankedSooner(lists: seq<seq<Hit>>, purposes: seq<string>, id: nat, a: string, b: string) {
    exists q :: RanksFor(lists, purposes, q, id, a) && forall r | RanksFor(lists, purposes, r, id, b) :: q < r
  }

  /** The purposes of exactly the queries that rank the memory, without repeats, in order of their first occurrence. */
  ghost predicate MatchedBy(matched: seq<string>, lists: seq<seq<Hit>>, purposes: seq<string>, id: nat) {
    && Distinct(matched)
    && (forall s :: s in matched <==> RankedFor(lists, purposes, id, s))
    && (forall i, j | 0 <= i < j < |matched| :: RankedSooner(lists, purposes, id, matched[i], matched[j]))
  }

  ghost predicate RankedFor(lists: seq<seq<Hit>>, purposes: seq<string>, id: nat, purpose: string) {
    exists q :: RanksFor(lists, purposes, q, id, purpose)
  }

  function PurposesIn(p: Pool, id: nat): seq<string> {
    if id in p.entries then p.entries[id].purposes else []
  }

  function WithPurpose(purposes: seq<string>, purpose: string): seq<string> {
    if purpose in purposes then purposes else purposes + [purpose]
  }

  lemma {:induction false} ListPurposes(p: Pool, list: seq<Hit>, purpose: string, id: nat)
    ensures PurposesIn(AddList(p, list, purpose), id) ==
            if RankedIn(list, id) then WithPurpose(PurposesIn(p, id), purpose) else PurposesIn(p, id)
  {
    if list != [] {
      var front := list[..|list| - 1];
      ListPurposes(p, front, purpose, id);
      RankedInLast(list, id);
      hide RankedIn, Share;
    }
  }

  lemma RanksForNext(lists: seq<seq<Hit>>, purposes: seq<string>, q: nat, id: nat, s: string)
    requires |lists| == |purposes| > 0
    ensures var front, before := lists[..|lists| - 1], purposes[..|lists| - 1];
            RanksFor(lists, purposes, q, id, s) <==>
            RanksFor(front, before, q, id, s) || (q == |lists| - 1 && RankedIn(lists[q], id) && purposes[q] == s)
  {
    hide RankedIn;
  }

  lemma SoonerNext(lists: seq<seq<Hit>>, purposes: seq<string>, id: nat, q: nat, a: string, b: string)
    requires |lists| == |purposes| > 0
    requires var front, before := lists[..|lists| - 1], purposes[..|lists| - 1];
             RanksFor(front, before, q, id, a) && forall r | RanksFor(front, before, r, id, b) :: q < r
    ensures RankedSooner(lists, purposes, id, a, b)
  {
    var front, before := lists[..|lists| - 1], purposes[..|lists| - 1];
    RanksForNext(lists, purposes, q, id, a);
    forall r | RanksFor(lists, purposes, r, id, b) ensures q < r {
      RanksForNext(lists, purposes, r, id, b);
    }
  }

  lemma RankedForNext(lists: seq<seq<Hit>>, purposes: seq<string>, id: nat, s: string)
    requires |lists| == |purposes| > 0
    ensures RankedFor(lists, purposes, id, s) <==>
            || RankedFor(lists[..|lists| - 1], purposes[..|lists| - 1], id, s)
            || (RankedIn(lists[|lists| - 1], id) && purposes[|lists| - 1] == s)
  {
    var n: nat := |lists| - 1;
    var front, before := lists[..n], purposes[..n];
    RanksForNext(lists, purposes, n, id, s);
    if RankedFor(front, before, id, s) {
      var q :| RanksFor(front, before, q, id, s);
      RanksForNext(lists, purposes, q, id, s);
    }
    if RankedFor(lists, purposes, id, s) {
      var q :| RanksFor(lists, purposes, q, id, s);
      RanksForNext(lists, purposes, q, id, s);
    }
  }

  lemma SoonerThan(lists: seq<seq<Hit>>, purposes: seq<string>, id: nat, a: string, b: string)
    requires |lists| == |purposes| > 0
    requires var front, before := lists[..|lists| - 1], purposes[..|lists| - 1];
             RankedSooner(front, before, id, a, b) || (RankedFor(front, before, id, a) && !RankedFor(front, before, id, b))
    ensures RankedSooner(lists, purposes, id, a, b)
  {
    var front, before := lists[..|lists| - 1], purposes[..|lists| - 1];
    if RankedFor(front, before, id, a) && !RankedFor(front, before, id, b) {
      var q :| RanksFor(front, before, q, id, a);
      SoonerNext(lists, purposes, id, q, a, b);
    } else {
      var q :| RanksFor(front, before, q, id, a) && forall r | RanksFor(front, before, r, id, b) :: q < r;
      SoonerNext(lists, purposes, id, q, a, b);
    }
  }

  lemma MatchedNext(matched: seq<string>, lists: seq<seq<Hit>>, purposes: seq<string>, id: nat)
    requires |lists| == |purposes| > 0
    requires MatchedBy(matched, lists[..|lists| - 1], purposes[..|lists| - 1], id)
    ensures var last, purpose := lists[|lists| - 1], purposes[|lists| - 1];
            MatchedBy(if RankedIn(last, id) then WithPurpose(matched, purpose) else matched, lists, purposes, id)
  {
    hide RankedIn, RankedFor, RankedSooner;
    var n: nat := |lists| - 1;
    var m := if RankedIn(lists[n], id) then WithPurpose(matched, purposes[n]) else matched;
    forall s ensures s in m <==> RankedFor(lists, purposes, id, s) {
      RankedForNext(lists, purposes, id, s);
    }
    forall i, j | 0 <= i < j < |m| ensures RankedSooner(lists, purposes, id, m[i], m[j]) {
      assert matched[i] in matched;
      SoonerThan(lists, purposes, id, m[i], m[j]);
    }
  }

  lemma {:induction false} FuseMatched(lists: seq<seq<Hit>>, purposes: seq<string>, id: nat)
    requires |lists| == |purposes|
    ensures MatchedBy(PurposesIn(Fuse(lists, purposes), id), lists, purposes, id)
  {
    if lists != [] {
      var n := |lists| - 1;
      FuseMatched(lists[..n], purposes[..n], id);
      ListPurposes(Fuse(lists[..n], purposes[..n]), lists[n], purposes[n], id);
      MatchedNext(PurposesIn(Fuse(lists[..n], purposes[..n]), id), lists, purposes, id);
    }
  }

  // ---- The order of first ranking ------------------------------------------------------------------------

  lemma OrderAfterHit(p: Pool, hits: seq<Hit>, hit: Hit, rank: nat, purpose: string)
    requires ValidPool(p) && p.order == FirstSeen(hits)
    ensures AddHit(p, hit, rank, purpose).order == FirstSeen(hits + [hit])
  {
    hide Share;
    assert (hits + [hit])[..|hits|] == hits;
  }

  lemma {:induction false} OrderAfterList(p: Pool, hits: seq<Hit>, list: seq<Hit>, purpose: string)
    requires ValidPool(p) && p.order == FirstSeen(hits)
    ensures AddList(p, list, purpose).order == FirstSeen(hits + list)
  {
    if list == [] {
      assert hits + list == hits;
    } else {
      var front, last := list[..|list| - 1], list[|list| - 1];
      OrderAfterList(p, hits, front, purpose);
      AddListFacts(p, front, purpose);
      AddListLast(p, list, purpose);
      AppendLast(hits, list);
      hide AddHit, AddList, FirstSeen, ValidPool;
      OrderAfterHit(AddList(p, front, purpose), hits + front, last, |list|, purpose);
    }
  }

  lemma {:induction false} FuseInOrder(lists: seq<seq<Hit>>, purposes: seq<string>)
    requires |lists| == |purposes|
    ensures Fuse(lists, purposes).order == FirstSeen(AllRanked(lists))
  {
    if lists != [] {
      var n := |lists| - 1;
      FuseInOrder(lists[..n], purposes[..n]);
      FuseFacts(lists[..n], purposes[..n]);
      OrderAfterList(Fuse(lists[..n], purposes[..n]), AllRanked(lists[..n]), lists[n], purposes[n]);
    }
  }

  /** The first hit of `a` comes before all hits of `b`. */
  ghost predicate Sooner(hits: seq<Hit>, a: nat, b: nat) {
    exists k :: 0 <= k < |hits| && hits[k].id == a && forall m | 0 <= m <= k :: hits[m].id != b
  }

  lemma {:induction false} SeenSooner(hits: seq<Hit>, i: nat, j: nat)
    requires i < j < |FirstSeen(hits)|
    ensures Sooner(hits, FirstSeen(hits)[i], FirstSeen(hits)[j])
  {
    var front, last, seen := hits[..|hits| - 1], hits[|hits| - 1], FirstSeen(hits[..|hits| - 1]);
    if j < |seen| {
      SeenSooner(front, i, j);
      var k :| 0 <= k < |front| && front[k].id == seen[i] && forall m | 0 <= m <= k :: front[m].id != seen[j];
      assert hits[k] == front[k] && forall m | 0 <= m <= k :: hits[m] == front[m];
    } else {
      assert seen[i] in seen;
      SeenOccurs(front, seen[i]);
      SeenOccurs(front, last.id);
      var k :| 0 <= k < |front| && front[k].id == seen[i];
      assert hits[k].id == seen[i] && forall m | 0 <= m <= k :: hits[m] == front[m] && front[m].id != last.id;
    }
  }

  // ---- The answer -------------------------------------------------------------------------------------------

  /** The largest score among the memory's ranked hits, or 0 if none is positive. */
  ghost predicate TopScore(hits: seq<Hit>, id: nat, best: real) {
    && best >= 0.0 && (forall h | h in hits && h.id == id :: h.score <= best)
    && (best == 0.0 || exists h | h in hits :: h.id == id && h.score == best)
  }

  /** By fused score, then by best raw score, then by first ranking. */
  ghost predicate Precedes(lists: seq<seq<Hit>>, a: nat, b: nat) {
    || FusedScore(lists, a) > FusedScore(lists, b)
    || (FusedScore(lists, a) == FusedScore(lists, b)
        && forall x, y | TopScore(AllRanked(lists), a, x) && TopScore(AllRanked(lists), b, y) ::
             x > y || (x == y && Sooner(AllRanked(lists), a, b)))
  }

  lemma TopIsBest(e: Entry, id: nat, hits: seq<Hit>)
    requires BestOf(e, id, hits)
    ensures forall x | TopScore(hits, id, x) :: x == e.best
  {
  }

  lemma BeforePrecedes(lists: seq<seq<Hit>>, purposes: seq<string>, a: nat, b: nat)
    requires |lists| == |purposes| && Before(Fuse(lists, purposes), a, b)
    ensures Precedes(lists, a, b)
  {
    var p := Fuse(lists, purposes);
    FuseFacts(lists, purposes);
    BestIsLargest(lists, purposes);
    FuseInOrder(lists, purposes);
    TopIsBest(p.entries[a], a, AllRanked(lists));
    TopIsBest(p.entries[b], b, AllRanked(lists));
    assert ScoreIn(p, a) == FusedScore(lists, a) && ScoreIn(p, b) == FusedScore(lists, b);
    PlaceIs(p, a);
    PlaceIs(p, b);
    var i, j := p.entries[a].firstSeen, p.entries[b].firstSeen;
    if i < j {
      SeenSooner(AllRanked(lists), i, j);
    }
    hide Fuse, AllRanked, FirstSeen, FusedScore, TopScore, BestOf, BestScores, ValidPool;
  }

  lemma PlaceIs(p: Pool, id: nat)
    requires ValidPool(p) && id in p.entries
    ensures p.entries[id].firstSeen < |p.order| && p.order[p.entries[id].firstSeen] == id
  {
    assert id in p.order;
    var i :| 0 <= i < |p.order| && p.order[i] == id;
  }

  /** What is answered of a memory. */
  ghost predicate AnswersFor(x: Fused, lists: seq<seq<Hit>>, purposes: seq<string>, items: map<nat, Item>, selector: string) {
    && (exists q, i :: 0 <= q < |lists| && 0 <= i < |lists[q]| && lists[q][i].id == x.id && Answerable(lists[q][i], items, selector))
    && x.score == FusedScore(lists, x.id)
    && MatchedBy(x.matchedQueries, lists, purposes, x.id)
  }

  lemma AnswerPurposes(p: Pool, items: map<nat, Item>, selector: string, limit: nat, i: nat)
    requires ValidPool(p) && Guarded(p, items, selector) && i < |Answer(p, items, selector, limit)|
    ensures var x := Answer(p, items, selector, limit)[i]; x.matchedQueries == PurposesIn(p, x.id)
  {
    AssembledPurposes(SortedIDs(p), p, items, selector, i);
  }

  lemma {:induction false} AssembledPurposes(ids: seq<nat>, p: Pool, items: map<nat, Item>, selector: string, i: nat)
    requires i < |Assembled(ids, p, items, selector)|
    ensures var x := Assembled(ids, p, items, selector)[i]; x.matchedQueries == PurposesIn(p, x.id)
  {
    if i < |Assembled(ids[..|ids| - 1], p, items, selector)| {
      AssembledPurposes(ids[..|ids| - 1], p, items, selector, i);
    }
  }

  lemma RankedAnswerable(queries: seq<Query>, items: map<nat, Item>, selector: string, perQueryLimit: nat, id: nat)
    requires RankedSomewhere(RankLists(queries, items, selector, perQueryLimit), id)
    ensures var lists := RankLists(queries, items, selector, perQueryLimit);
            exists q, i :: 0 <= q < |lists| && 0 <= i < |lists[q]| && lists[q][i].id == id && Answerable(lists[q][i], items, selector)
  {
    var lists := RankLists(queries, items, selector, perQueryLimit);
    var q :| 0 <= q < |lists| && RankedIn(lists[q], id);
    var i :| 0 <= i < |lists[q]| && lists[q][i].id == id;
    RankedOnce(queries[q].ranking, items, selector, perQueryLimit);
    assert lists[q][i] in lists[q];
    AnswerableEligible(lists[q][i], items, selector);
    hide Answerable, CandidateEligible, Ranked;
  }

  lemma AnswerIsFor(queries: seq<Query>, items: map<nat, Item>, selector: string, perQueryLimit: nat, limit: nat, i: nat)
    requires i < |Answer(PoolOf(queries, items, selector, perQueryLimit), items, selector, limit)|
    ensures var x := Answer(PoolOf(queries, items, selector, perQueryLimit), items, selector, limit)[i];
            AnswersFor(x, RankLists(queries, items, selector, perQueryLimit), Purposes(queries), items, selector)
  {
    var p, lists := PoolOf(queries, items, selector, perQueryLimit), RankLists(queries, items, selector, perQueryLimit);
    AnswerScores(queries, items, selector, perQueryLimit, limit, i);
    GuardDropsNothing(queries, items, selector, perQueryLimit);
    FuseFacts(lists, Purposes(queries));
    AnswerPurposes(p, items, selector, limit, i);
    hide RankLists, Fuse, Answer, FusedScore, MatchedBy, Answerable, RankedSomewhere, ValidPool, Guarded;
    var x := Answer(p, items, selector, limit)[i];
    FuseMatched(lists, Purposes(queries), x.id);
    RankedAnswerable(queries, items, selector, perQueryLimit, x.id);
  }

  /** The whole search, for every ranking and every snapshot of the primary store: each query ranks, in order, the first
      hits that may be answered; the answer holds distinct ranked memories with the sum of their shares and
      the purposes of the queries that rank them, each before the next; and what is ranked and left out comes
      after all of a full answer. */
  lemma FusedMeaning(queries: seq<Query>, items: map<nat, Item>, selector: string, perQueryLimit: nat, limit: nat)
    ensures var lists, purposes := RankLists(queries, items, selector, perQueryLimit), Purposes(queries);
            var answer := Answer(PoolOf(queries, items, selector, perQueryLimit), items, selector, limit);
            && |lists| == |purposes| == |queries| && |answer| <= limit
            && (forall q | 0 <= q < |queries| ::
                  purposes[q] == queries[q].purpose && RankedSomehow(queries[q].ranking, lists[q], items, selector, perQueryLimit))
            && (forall x | x in answer :: AnswersFor(x, lists, purposes, items, selector))
            && (forall i, j | 0 <= i < j < |answer| :: answer[i].id != answer[j].id && Precedes(lists, answer[i].id, answer[j].id))
            && (forall id | RankedSomewhere(lists, id) ::
                  || (exists x | x in answer :: x.id == id)
                  || (|answer| == limit && forall x | x in answer :: Precedes(lists, x.id, id)))
  {
    var lists, purposes := RankLists(queries, items, selector, perQueryLimit), Purposes(queries);
    var answer := Answer(PoolOf(queries, items, selector, perQueryLimit), items, selector, limit);
    hide Answer, FusedScore, Precedes, RankedSomewhere, RankedSomehow, AnswersFor;
    AnswerInOrder(queries, items, selector, perQueryLimit, limit);
    forall q | 0 <= q < |queries| ensures RankedSomehow(queries[q].ranking, lists[q], items, selector, perQueryLimit) {
      RankedMeaning(queries[q].ranking, items, selector, perQueryLimit);
    }
    forall i | 0 <= i < |answer| ensures AnswersFor(answer[i], lists, purposes, items, selector) {
      AnswerIsFor(queries, items, selector, perQueryLimit, limit, i);
    }
  }

  lemma AnswerInOrder(queries: seq<Query>, items: map<nat, Item>, selector: string, perQueryLimit: nat, limit: nat)
    ensures var lists := RankLists(queries, items, selector, perQueryLimit);
            var answer := Answer(PoolOf(queries, items, selector, perQueryLimit), items, selector, limit);
            && |answer| <= limit
            && (forall i, j | 0 <= i < j < |answer| :: answer[i].id != answer[j].id && Precedes(lists, answer[i].id, answer[j].id))
            && (forall id | RankedSomewhere(lists, id) ::
                  || (exists x | x in answer :: x.id == id)
                  || (|answer| == limit && forall x | x in answer :: Precedes(lists, x.id, id)))
  {
    var lists, purposes := RankLists(queries, items, selector, perQueryLimit), Purposes(queries);
    assert |lists| == |purposes|;
    hide RankLists, Purposes, Fuse, Answer, FusedScore, Precedes, Before, Guarded, ValidPool, RankedSomewhere;
    var p := PoolOf(queries, items, selector, perQueryLimit);
    var answer := Answer(p, items, selector, limit);
    FuseFacts(lists, purposes);
    GuardDropsNothing(queries, items, selector, perQueryLimit);
    AnswerOrder(p, items, selector, limit);
    AnswerFull(p, items, selector, limit);
    forall a, b | Before(p, a, b) ensures Precedes(lists, a, b) {
      BeforePrecedes(lists, purposes, a, b);
    }
    LeftOutBehind(p, lists, answer, limit);
  }

  lemma LeftOutBehind(p: Pool, lists: seq<seq<Hit>>, answer: seq<Fused>, limit: nat)
    requires forall id :: id in p.entries <==> RankedSomewhere(lists, id)
    requires |answer| == limit || forall id | id in p.entries :: Answered(answer, id)
    requires forall i, id | 0 <= i < |answer| && id in p.entries && !Answered(answer, id) :: Before(p, answer[i].id, id)
    requires forall a, b | Before(p, a, b) :: Precedes(lists, a, b)
    ensures forall id | RankedSomewhere(lists, id) ::
              || (exists x | x in answer :: x.id == id)
              || (|answer| == limit && forall x | x in answer :: Precedes(lists, x.id, id))
  {
    hide RankedSomewhere, Precedes, Before;
    forall id | RankedSomewhere(lists, id) && !(exists x | x in answer :: x.id == id)
      ensures |answer| == limit && forall x | x in answer :: Precedes(lists, x.id, id)
    {
      NotAnswered(answer, id);
      forall x | x in answer ensures Precedes(lists, x.id, id) {
        var i :| 0 <= i < |answer| && answer[i] == x;
      }
    }
  }

  lemma NotAnswered(answer: seq<Fused>, id: nat)
    ensures Answered(answer, id) ==> exists x | x in answer :: x.id == id
  {
    if Answered(answer, id) {
      var i :| 0 <= i < |answer| && answer[i].id == id;
      assert answer[i] in answer;
    }
  }

  lemma AnswerFull(p: Pool, items: map<nat, Item>, selector: string, limit: nat)
    requires ValidPool(p) && Guarded(p, items, selector)
    ensures var answer := Answer(p, items, selector, limit);
            && (forall i | 0 <= i < |answer| :: answer[i].id in p.entries)
            && (|answer| == limit || forall id | id in p.entries :: Answered(answer, id))
  {
    var answer, s := Answer(p, items, selector, limit), SortedIDs(p);
    AnswerIsPrefix(p, items, selector, limit);
    SortedFacts(p);
    hide Answer, SortedIDs, Guarded, ValidPool, Before;
    if |answer| != limit {
      forall id | id in p.entries ensures Answered(answer, id) {
        var i :| 0 <= i < |s| && s[i] == id;
        assert answer[i].id == id;
      }
    }
  }
}
