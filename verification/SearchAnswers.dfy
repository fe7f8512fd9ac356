/** What answered memories are, in terms of the backend's hits and the rows of the primary store
    (internal/grpc/server.go:5386-5481, 5559-5794). */
module SearchAnswers {
  import opened Wrappers
  import opened KindSelector
  import opened Sorting
  import opened MemorySearch
  import opened RankFusion
  import opened FusionOrder

  // ---- Which hits may be answered ----------------------------------------------------------------------

  /** The row is of a selected kind: any, one exact kind, or a family of kinds. */
  ghost predicate Selected(kind: string, selector: string) {
    || selector == ""
    || ('/' in selector && kind == selector)
    || ('/' !in selector && |kind| > |selector| && kind[..|selector|] == selector && kind[|selector|] == '/')
  }

  /** There is a row of a selected kind; and the store vouches for the hit, or it was indexed under the row's kind
      and its very revision. */
  ghost predicate Answerable(hit: Hit, items: map<nat, Item>, selector: string) {
    && hit.id in items && Selected(items[hit.id].kind, selector)
    && (hit.validated
        || (hit.kind != "" && hit.kind == items[hit.id].kind && hit.revision > 0 && hit.revision == items[hit.id].revision))
  }

  lemma SelectedMatches(kind: string, selector: string)
    ensures MatchesKindSelector(kind, selector) <==> Selected(kind, selector)
  {
    var i := SlashIndex(selector);
    assert '/' in selector <==> i < |selector|;
    if selector + "/" <= kind {
      assert kind[..|selector|] == (selector + "/")[..|selector|] == selector;
      assert kind[|selector|] == (selector + "/")[|selector|];
    }
    if |kind| > |selector| && kind[..|selector|] == selector && kind[|selector|] == '/' {
      assert kind[..|selector| + 1] == selector + "/";
    }
  }

  lemma AnswerableEligible(hit: Hit, items: map<nat, Item>, selector: string)
    ensures Answerable(hit, items, selector) <==> hit.id in items && CandidateEligible(hit, items[hit.id], selector)
  {
    if hit.id in items {
      SelectedMatches(items[hit.id].kind, selector);
    }
  }

  // ---- One query ------------------------------------------------------------------------------------------

  /** The hit at `k` is the first of its memory, and the memory may be answered for it. */
  ghost predicate Counts(hits: seq<Hit>, k: nat, items: map<nat, Item>, selector: string) {
    k < |hits| && (forall j | 0 <= j < k :: hits[j].id != hits[k].id) && Answerable(hits[k], items, selector)
  }

  /** `at` are places of such hits, in order, and `list` the hits there. */
  ghost predicate Places(hits: seq<Hit>, list: seq<Hit>, at: seq<nat>, items: map<nat, Item>, selector: string) {
    && |at| == |list|
    && (forall i, j | 0 <= i < j < |at| :: at[i] < at[j])
    && (forall i | 0 <= i < |at| :: at[i] < |hits| && list[i] == hits[at[i]] && Counts(hits, at[i], items, selector))
  }

  /** No such hit is missing. */
  ghost predicate NoneMissing(hits: seq<Hit>, at: seq<nat>, items: map<nat, Item>, selector: string) {
    forall k: nat | Counts(hits, k, items, selector) :: k in at
  }

  lemma SeenOccurs(hits: seq<Hit>, id: nat)
    ensures id in FirstSeen(hits) <==> Occurs(hits, id)
  {
    DedupMembers(hits);
    BestMeaning(hits, id);
  }

  lemma CountsPrefix(hits: seq<Hit>, n: nat, k: nat, items: map<nat, Item>, selector: string)
    requires k < n <= |hits|
    ensures Counts(hits[..n], k, items, selector) <==> Counts(hits, k, items, selector)
  {
    hide Answerable;
    assert forall j | 0 <= j <= k :: hits[..n][j] == hits[j];
  }

  lemma CountsNext(front: seq<Hit>, last: Hit, k: nat, items: map<nat, Item>, selector: string)
    ensures k < |front| ==> (Counts(front + [last], k, items, selector) <==> Counts(front, k, items, selector))
    ensures Counts(front + [last], |front|, items, selector) <==> !Occurs(front, last.id) && Answerable(last, items, selector)
  {
    hide Answerable;
    var all := front + [last];
    assert forall j | 0 <= j < |front| :: all[j] == front[j];
    if Occurs(front, last.id) {
      var j :| 0 <= j < |front| && front[j].id == last.id;
      assert all[j].id == last.id;
    }
  }

  /** One more hit. */
  lemma PlacesNext(front: seq<Hit>, last: Hit, list: seq<Hit>, at: seq<nat>, items: map<nat, Item>, selector: string)
    requires Places(front, list, at, items, selector) && NoneMissing(front, at, items, selector)
    ensures var more := !Occurs(front, last.id) && Answerable(last, items, selector);
            var at' := if more then at + [|front|] else at;
            && Places(front + [last], if more then list + [last] else list, at', items, selector)
            && NoneMissing(front + [last], at', items, selector)
  {
    hide Answerable, Occurs, Counts, NoneMissing;
    var all := front + [last];
    forall i | 0 <= i < |at| ensures Counts(all, at[i], items, selector) {
      CountsNext(front, last, at[i], items, selector);
    }
    CountsNext(front, last, 0, items, selector);
    NoneMissingNext(front, last, at, items, selector);
  }

  lemma NoneMissingNext(front: seq<Hit>, last: Hit, at: seq<nat>, items: map<nat, Item>, selector: string)
    requires NoneMissing(front, at, items, selector)
    ensures var more := !Occurs(front, last.id) && Answerable(last, items, selector);
            NoneMissing(front + [last], if more then at + [|front|] else at, items, selector)
  {
    hide Answerable, Occurs, Counts;
    var all := front + [last];
    var more := !Occurs(front, last.id) && Answerable(last, items, selector);
    var at' := if more then at + [|front|] else at;
    forall k: nat | Counts(all, k, items, selector) ensures k in at' {
      CountsWithin(all, k, items, selector);
      CountsNext(front, last, k, items, selector);
    }
  }

  lemma CountsWithin(hits: seq<Hit>, k: nat, items: map<nat, Item>, selector: string)
    requires Counts(hits, k, items, selector)
    ensures k < |hits|
  {
  }

  ghost predicate FreshPlaced(hits: seq<Hit>, items: map<nat, Item>, selector: string) {
    exists at :: Places(hits, FreshHits(hits, items, selector), at, items, selector) && NoneMissing(hits, at, items, selector)
  }

  lemma FreshLast(front: seq<Hit>, last: Hit, items: map<nat, Item>, selector: string)
    ensures var known := FreshHits(front, items, selector);
            FreshHits(front + [last], items, selector) ==
            if !Occurs(front, last.id) && Answerable(last, items, selector) then known + [last] else known
  {
    assert (front + [last])[..|front|] == front;
    SeenOccurs(front, last.id);
    AnswerableEligible(last, items, selector);
  }

  lemma PlacedBy(hits: seq<Hit>, at: seq<nat>, items: map<nat, Item>, selector: string)
    requires Places(hits, FreshHits(hits, items, selector), at, items, selector) && NoneMissing(hits, at, items, selector)
    ensures FreshPlaced(hits, items, selector)
  {
  }

  lemma {:induction false} FreshMeaning(hits: seq<Hit>, items: map<nat, Item>, selector: string)
    ensures FreshPlaced(hits, items, selector)
  {
    if hits == [] {
      PlacedBy(hits, [], items, selector);
    } else {
      var front, last := hits[..|hits| - 1], hits[|hits| - 1];
      FreshMeaning(front, items, selector);
      var at: seq<nat> :| Places(front, FreshHits(front, items, selector), at, items, selector) && NoneMissing(front, at, items, selector);
      hide *;
      PlacesNext(front, last, FreshHits(front, items, selector), at, items, selector);
      FreshLast(front, last, items, selector);
      FrontLast(hits);
      PlacedBy(hits, if !Occurs(front, last.id) && Answerable(last, items, selector) then at + [|front|] else at, items, selector);
    }
  }

  /** The query ranks the hits at these places.  Of the first thousand hits that count it leaves out only what comes
      behind them, and then it ranks as many as it may. */
  ghost predicate RankedAt(ranking: seq<Hit>, list: seq<Hit>, at: seq<nat>, items: map<nat, Item>, selector: string, limit: nat) {
    && Places(ranking, list, at, items, selector) && |list| <= limit
    && forall k: nat | k < 1000 && Counts(ranking, k, items, selector) ::
         k in at || (|list| == limit && forall i | 0 <= i < |at| :: at[i] < k)
  }

  /** The beginning of what is fetched, if it is long enough or all is fetched. */
  lemma TakePlaces(ranking: seq<Hit>, n: nat, list: seq<Hit>, at: seq<nat>, items: map<nat, Item>, selector: string, limit: nat)
    requires n <= |ranking| && (n == |ranking| || n >= 1000 || |list| >= limit)
    requires Places(ranking[..n], list, at, items, selector) && NoneMissing(ranking[..n], at, items, selector)
    ensures RankedAt(ranking, Take(list, limit), Take(at, limit), items, selector, limit)
  {
    hide Counts, NoneMissing;
    var some, taken := Take(at, limit), Take(list, limit);
    PlacesTaken(ranking, n, list, at, items, selector, limit);
    forall k: nat | k < 1000 && Counts(ranking, k, items, selector)
      ensures k in some || (|taken| == limit && forall i | 0 <= i < |some| :: some[i] < k)
    {
      CountsWithin(ranking, k, items, selector);
      if k < n {
        CountsPrefix(ranking, n, k, items, selector);
        MissingNone(ranking[..n], at, k, items, selector);
        var j :| 0 <= j < |at| && at[j] == k;
        assert j < |some| ==> some[j] == k;
      }
    }
  }

  lemma MissingNone(hits: seq<Hit>, at: seq<nat>, k: nat, items: map<nat, Item>, selector: string)
    requires NoneMissing(hits, at, items, selector) && Counts(hits, k, items, selector)
    ensures k in at
  {
  }

  lemma PlacesTaken(ranking: seq<Hit>, n: nat, list: seq<Hit>, at: seq<nat>, items: map<nat, Item>, selector: string, limit: nat)
    requires n <= |ranking| && Places(ranking[..n], list, at, items, selector)
    ensures Places(ranking, Take(list, limit), Take(at, limit), items, selector)
    ensures |Take(list, limit)| == Min(limit, |list|) && forall i | 0 <= i < |Take(at, limit)| :: Take(at, limit)[i] == at[i] < n
  {
    hide Counts;
    var some, taken := Take(at, limit), Take(list, limit);
    forall i | 0 <= i < |some| ensures taken[i] == ranking[some[i]] && Counts(ranking, some[i], items, selector) {
      CountsPrefix(ranking, n, at[i], items, selector);
    }
  }

  ghost predicate RankedSomehow(ranking: seq<Hit>, list: seq<Hit>, items: map<nat, Item>, selector: string, limit: nat) {
    exists at :: RankedAt(ranking, list, at, items, selector, limit)
  }

  /** For every ranking, in any order of scores: a query ranks, in order, the first hits of distinct memories that may
      be answered; and of those among its first thousand hits it leaves out only what comes behind a full list. */
  lemma RankedMeaning(ranking: seq<Hit>, items: map<nat, Item>, selector: string, limit: nat)
    ensures RankedSomehow(ranking, Ranked(ranking, items, selector, limit), items, selector, limit)
  {
    var fetched := FinalQueryFetch(ranking, items, selector, limit, FirstFetch(limit));
    var n := Min(fetched, |ranking|);
    var hits := ranking[..n];
    CandidatesAreFresh(hits, items, selector);
    FreshMeaning(hits, items, selector);
    var list := FreshHits(hits, items, selector);
    var at: seq<nat> :| Places(hits, list, at, items, selector) && NoneMissing(hits, at, items, selector);
    assert n == |ranking| || n >= 1000 || |list| >= limit;
    hide FreshHits, Places, NoneMissing, FinalQueryFetch, Candidates, RankedAt;
    TakePlaces(ranking, n, list, at, items, selector, limit);
    assert Ranked(ranking, items, selector, limit) == Take(list, limit);
  }

  // ---- Semantic search -----------------------------------------------------------------------------------------

  lemma {:induction false} KeepMeaning(ids: seq<nat>, best: map<nat, Hit>, items: map<nat, Item>, selector: string)
    requires Distinct(ids) && forall id | id in ids :: id in best && best[id].id == id
    ensures var kept := Keep(ids, best, items, selector);
            && (forall x | x in kept :: x.id in ids && Answerable(best[x.id], items, selector) && x.score == best[x.id].score)
            && (forall id | id in ids && Answerable(best[id], items, selector) :: Scored(id, best[id].score) in kept)
            && Distinct(kept)
  {
    if ids != [] {
      var front, last := ids[..|ids| - 1], ids[|ids| - 1];
      assert ids == front + [last];
      KeepMeaning(front, best, items, selector);
      AnswerableEligible(best[last], items, selector);
      hide Answerable, CandidateEligible;
    }
  }

  /** The first hit of the memory counts. */
  ghost predicate CountsFor(hits: seq<Hit>, id: nat, items: map<nat, Item>, selector: string) {
    exists k: nat :: Counts(hits, k, items, selector) && hits[k].id == id
  }

  /** The memory is answered for its first hit, with the best score of its hits. */
  ghost predicate AnsweredFor(hits: seq<Hit>, x: Scored, items: map<nat, Item>, selector: string) {
    CountsFor(hits, x.id, items, selector) && exists j: nat :: BestAt(hits, x.id, j) && x.score == hits[j].score
  }

  ghost predicate ByScore(answer: seq<Scored>) {
    forall i, j | 0 <= i < j < |answer| :: answer[i].score >= answer[j].score && answer[i].id != answer[j].id
  }

  lemma FirstCounts(hits: seq<Hit>, id: nat, i: nat, items: map<nat, Item>, selector: string)
    requires FirstAt(hits, id, i)
    ensures Counts(hits, i, items, selector) <==> Answerable(hits[i], items, selector)
    ensures forall k: nat | Counts(hits, k, items, selector) && hits[k].id == id :: k == i
  {
    hide Answerable;
  }

  lemma MergedCounts(best: Hit, hits: seq<Hit>, id: nat, items: map<nat, Item>, selector: string)
    requires MergedFrom(best, hits, id)
    ensures best.id == id
    ensures Answerable(best, items, selector) <==> CountsFor(hits, id, items, selector)
    ensures Answerable(best, items, selector) ==> AnsweredFor(hits, Scored(id, best.score), items, selector)
    ensures forall k | 0 <= k < |hits| && hits[k].id == id :: hits[k].score <= best.score
  {
    var i: nat, j: nat :| FirstAt(hits, id, i) && BestAt(hits, id, j) && best == hits[i].(score := hits[j].score);
    FirstCounts(hits, id, i, items, selector);
    assert Answerable(hits[i], items, selector) <==> Answerable(best, items, selector);
    hide Answerable, Counts;
  }

  lemma KeptAnswers(hits: seq<Hit>, items: map<nat, Item>, selector: string)
    ensures var kept := Keep(FirstSeen(hits), BestByID(hits), items, selector);
            && Distinct(kept)
            && (forall x, y | x in kept && y in kept && x.id == y.id :: x == y)
            && (forall x | x in kept :: AnsweredFor(hits, x, items, selector))
            && (forall id | CountsFor(hits, id, items, selector) :: exists x | x in kept :: x.id == id && TopIn(hits, x))
  {
    var ids, best := FirstSeen(hits), BestByID(hits);
    DedupMembers(hits);
    KeepMeaning(ids, best, items, selector);
    forall id | id in best ensures MergedFrom(best[id], hits, id) {
      BestMeaning(hits, id);
    }
    hide FirstSeen, BestByID, Keep, MergedFrom, Answerable, AnsweredFor, CountsFor;
    var kept := Keep(ids, best, items, selector);
    forall x | x in kept ensures AnsweredFor(hits, x, items, selector) {
      MergedCounts(best[x.id], hits, x.id, items, selector);
      assert Scored(x.id, best[x.id].score) == x;
    }
    forall id | CountsFor(hits, id, items, selector) ensures exists x | x in kept :: x.id == id && TopIn(hits, x) {
      CountsOccurs(hits, id, items, selector);
      SeenOccurs(hits, id);
      MergedCounts(best[id], hits, id, items, selector);
      assert Scored(id, best[id].score) in kept;
    }
  }

  lemma CountsOccurs(hits: seq<Hit>, id: nat, items: map<nat, Item>, selector: string)
    requires CountsFor(hits, id, items, selector)
    ensures Occurs(hits, id)
  {
    hide Answerable;
  }

  /** No hit of the memory has a better score. */
  ghost predicate TopIn(hits: seq<Hit>, x: Scored) {
    forall k | 0 <= k < |hits| && hits[k].id == x.id :: hits[k].score <= x.score
  }

  /** The results of a fetch: descending, each memory once and for its first hit, and none missing. */
  lemma ResultsMeaning(hits: seq<Hit>, items: map<nat, Item>, selector: string)
    ensures var results := Results(hits, items, selector);
            && ByScore(results)
            && (forall x | x in results :: AnsweredFor(hits, x, items, selector))
            && (forall id | CountsFor(hits, id, items, selector) :: exists x | x in results :: x.id == id && TopIn(hits, x))
  {
    hide FirstSeen, BestByID, Keep, StableSort, AnsweredFor, CountsFor, TopIn;
    var kept := Keep(FirstSeen(hits), BestByID(hits), items, selector);
    KeptAnswers(hits, items, selector);
    SortedByScore(kept);
    SortPermutes(kept, HigherScore);
  }

  lemma SortedByScore(kept: seq<Scored>)
    requires Distinct(kept) && forall x, y | x in kept && y in kept && x.id == y.id :: x == y
    ensures ByScore(StableSort(kept, HigherScore))
  {
    SortSorts(kept, HigherScore, kept);
    SortPermutes(kept, HigherScore);
    SameMultisetDistinct(kept, StableSort(kept, HigherScore));
    hide StableSort, SortedBy, Distinct;
    ScoresOnce(StableSort(kept, HigherScore));
  }

  lemma ScoresOnce(results: seq<Scored>)
    requires SortedBy(results, HigherScore) && Distinct(results)
    requires forall x, y | x in results && y in results && x.id == y.id :: x == y
    ensures ByScore(results)
  {
    forall i, j | 0 <= i < j < |results| ensures results[i].score >= results[j].score && results[i].id != results[j].id {
      assert !HigherScore(results[j], results[i]);
      assert results[i] in results && results[j] in results && results[i] != results[j];
    }
  }

  lemma CountsForPrefix(ranking: seq<Hit>, n: nat, id: nat, items: map<nat, Item>, selector: string)
    requires n <= |ranking| && CountsFor(ranking[..n], id, items, selector)
    ensures CountsFor(ranking, id, items, selector)
  {
    var k: nat :| Counts(ranking[..n], k, items, selector) && ranking[..n][k].id == id;
    CountsWithin(ranking[..n], k, items, selector);
    CountsPrefix(ranking, n, k, items, selector);
    hide Counts;
    assert ranking[k] == ranking[..n][k];
  }

  /** The answer holds the memory of the hit at `k`; or it is full, and in a descending ranking of nothing that scores less. */
  ghost predicate AnsweredOrBeaten(ranking: seq<Hit>, k: nat, answer: seq<Scored>, limit: nat)
    requires k < |ranking|
  {
    || (exists x | x in answer :: x.id == ranking[k].id)
    || (|answer| == limit && (Descending(ranking) ==> forall x | x in answer :: x.score >= ranking[k].score))
  }

  /** For every ranking: the answer is descending and holds each memory once, for its first hit in the ranking and with the
      best score of the fetched ones.  Of the memories whose first hits count and are among the first thousand it leaves
      out only, being full, those that in a descending ranking score no better than all answered ones. */
  lemma SemanticMeaning(ranking: seq<Hit>, items: map<nat, Item>, limit: nat, selector: string)
    ensures var hits := SearchMemoryVectors(ranking, FinalFetch(ranking, items, selector, limit, FirstFetch(limit)));
            var answer := Take(Results(hits, items, selector), limit);
            && |answer| <= limit && ByScore(answer)
            && (forall x | x in answer :: AnsweredFor(hits, x, items, selector) && CountsFor(ranking, x.id, items, selector))
            && (forall k: nat | k < 1000 && k < |ranking| && Counts(ranking, k, items, selector) ::
                  AnsweredOrBeaten(ranking, k, answer, limit))
  {
    var fetched := FinalFetch(ranking, items, selector, limit, FirstFetch(limit));
    var n := Min(fetched, |ranking|);
    var hits := ranking[..n];
    var results := Results(hits, items, selector);
    assert n == |ranking| || n >= 1000 || |results| >= limit;
    hide FinalFetch, Results, Counts, AnsweredFor, CountsFor, AnsweredOrBeaten, ByScore, Take;
    ResultsMeaning(hits, items, selector);
    TakeResults(results, limit);
    forall x | x in Take(results, limit) ensures CountsFor(ranking, x.id, items, selector) {
      AnsweredCounts(hits, x, items, selector);
      CountsForPrefix(ranking, n, x.id, items, selector);
    }
    forall k: nat | k < 1000 && k < |ranking| && Counts(ranking, k, items, selector)
      ensures AnsweredOrBeaten(ranking, k, Take(results, limit), limit)
    {
      if k < n {
        FetchedBeaten(ranking, n, k, results, items, selector, limit);
      } else {
        UnfetchedBeaten(ranking, n, k, results, items, selector, limit);
      }
    }
  }

  lemma TakeResults(results: seq<Scored>, limit: nat)
    requires ByScore(results)
    ensures var answer := Take(results, limit);
            && ByScore(answer) && |answer| == Min(limit, |results|) && (forall x | x in answer :: x in results)
            && forall x, y | x in answer && y in results && y !in answer :: x.score >= y.score
  {
    var answer := Take(results, limit);
    assert forall i | 0 <= i < |answer| :: answer[i] == results[i];
    forall x, y | x in answer && y in results && y !in answer ensures x.score >= y.score {
      var i :| 0 <= i < |answer| && answer[i] == x;
      var j :| 0 <= j < |results| && results[j] == y;
    }
  }

  lemma AnsweredCounts(hits: seq<Hit>, x: Scored, items: map<nat, Item>, selector: string)
    requires AnsweredFor(hits, x, items, selector)
    ensures CountsFor(hits, x.id, items, selector)
  {
  }

  lemma FetchedBeaten(ranking: seq<Hit>, n: nat, k: nat, results: seq<Scored>, items: map<nat, Item>, selector: string, limit: nat)
    requires k < n <= |ranking| && Counts(ranking, k, items, selector) && ByScore(results)
    requires forall id | CountsFor(ranking[..n], id, items, selector) :: exists x | x in results :: x.id == id && TopIn(ranking[..n], x)
    ensures AnsweredOrBeaten(ranking, k, Take(results, limit), limit)
  {
    var hits := ranking[..n];
    CountsPrefix(ranking, n, k, items, selector);
    hide Counts, ByScore, Take, Descending;
    assert hits[k] == ranking[k];
    assert CountsFor(hits, hits[k].id, items, selector);
    var y :| y in results && y.id == hits[k].id && TopIn(hits, y);
    TakeResults(results, limit);
  }

  lemma UnfetchedBeaten(ranking: seq<Hit>, n: nat, k: nat, results: seq<Scored>, items: map<nat, Item>, selector: string, limit: nat)
    requires n <= k < |ranking| && |results| >= limit && ByScore(results)
    requires forall x | x in results :: AnsweredFor(ranking[..n], x, items, selector)
    ensures AnsweredOrBeaten(ranking, k, Take(results, limit), limit)
  {
    hide ByScore, Take, CountsFor;
    TakeResults(results, limit);
    if Descending(ranking) {
      forall x | x in results ensures x.score >= ranking[k].score {
        var j: nat :| BestAt(ranking[..n], x.id, j) && x.score == ranking[..n][j].score;
        assert ranking[..n][j] == ranking[j];
      }
    }
  }
}
