# Verified core of the memory service

This project models the parts of the memory service whose correctness is not visible from any one
function, and proves what they promise. Code that changes state step by step is written as Dafny
methods and classes and tied to a specification; the theorems are about the specification, for every
input, every run or every reachable state.

| modules | part of the service |
|---|---|
| `EventStream`, `EventDelivery`, `EventResume`, `EventRepeats`, `EventReplay`, `EventEviction`, `EventFilters` | durable event replay followed by live delivery: the outbox, the relay and its restarts, the bus subscription, slow-consumer recovery, resuming on a new stream, eviction of old rows, what the filters let through |
| `MemorySearch`, `RankFusion`, `FusionOrder`, `SearchAnswers`, `FusionAnswers`, `Sorting` | vector search with bounded overfetch, reciprocal-rank fusion of several queries, and what their answers are in terms of hits and rows |
| `DensityGraph`, `Dbscan`, `Diff`, `Clusterer` | knowledge clustering: DBSCAN, matching against the stored clusters, applying the difference |
| `Ancestry` | conversation forks and the visible history that they inherit |
| `Resumer`, `Replay`, `ReplaySafety`, `Bytes` | response recordings and their replays while they are being written |
| `ErrorGraph`, `ErrorReport` | bounded collection of details from a possibly cyclic graph of wrapped errors |
| `Mseh` | the envelope header of encrypted data and the associated data of encrypted fields |
| `Namespace`, `NamespacePrefix` | encoded namespaces and the SQL LIKE patterns of their prefixes |
| `KindSelector` | kind selectors and their intersection with a policy |
| `Wrappers` | shared types |

`dafny verify dfyconfig.toml` checks everything.

## What the code does, where its comments say otherwise

* The documentation asks that more than one half of a cluster overlaps. The code also accepts exactly one half
  (`Diff.HalfIsEnough`): what it matches is the documented matching followed by picks of exactly one half
  (`Diff.GreedyIsStrict`), and the two agree exactly if there are none (`Diff.StrictExact`,
  `Diff.DiffDocumented`).
* The LIKE pattern of a namespace prefix does not match the prefix itself; the queries add an equality
  (`NamespacePrefix.PrefixSearch`). The SQLite store's queries name no escape character. There the pattern
  finds all that lies under a prefix exactly if the encoded prefix holds no percent sign and no underscore
  (`NamespacePrefix.UnescapedComplete`); otherwise it finds nothing (`NamespacePrefix.UnescapedPatternMisses`).
  Since SQLite ignores the case of letters, it also finds other namespaces unless the encoded prefix holds no
  letter (`NamespacePrefix.UnescapedExact`, `NamespacePrefix.UnescapedPatternOvermatches`).
* A replay reads at most one mebibyte of what it has not sent and then skips the rest: it is complete
  exactly if no unread gap was ever larger (`ReplaySafety.ReplayExact`, `ReplaySafety.LongTokenIsCut`).
  What a failed write left in the file shifts the tokens that are recorded after it
  (`ReplaySafety.DebrisIsRecorded`), unless they happen to read on from it: the recorded bytes are the accepted
  tokens exactly if each token was in place when it was accepted (`ReplaySafety.RecordedExact`), and a replay
  that ends has sent the accepted tokens exactly if they were and no gap was too large
  (`ReplaySafety.ReplaySendsTokens`). Behind the last token the rest of a failed write is never sent
  (`ReplaySafety.DebrisBehind`). All further tokens stay right exactly if there is no such rest, or the
  recording is complete (`ReplaySafety.ContinuationExact`).
* The design note on the outbox promises a switch to live delivery without duplicates
  (`docs/enhancements/090-event-outbox.md`, line 858), but cursors are remembered for one replay call only. With a
  relay that publishes each event once, an event can be sent again after the switch exactly if one was paged
  that the relay had not published yet (`EventRepeats.SwitchRepeats`). A relay that restarts publishes events
  again; then even one replay call can send an event twice (`EventRepeats.RepeatedInCall`,
  `EventReplay.CallSendsOnce`). A recovery repeats what was sent behind the last cursor
  (`EventReplay.RecoveryRepeats`). Nothing is lost in any of these runs (`EventDelivery.NoGap`).
* The marker "live" carries the cursor of the newest event in the outbox. A client can lose events by resuming
  there, unless all that it wants up to that cursor was sent before the marker (`EventResume.MarkerResume`,
  `EventResume.MarkerRunsAhead`). The cursors of received events are always safe (`EventResume.ReceivedIsCovered`).
* Outbox rows are evicted by creation time, while streams follow the cursor. A cursor whose row is gone is
  reported as stale, but an evicted row between two that are kept vanishes without notice
  (`EventEviction.LaterRowVanishes`). Queries stay honest exactly if the evicted rows are the oldest by cursor
  (`EventEviction.PageExact`), which holds for all evictions by age exactly if rows are created in cursor order
  (`EventEviction.AgeExact`). Then no stream has a gap (`EventEviction.NoGapEvicting`).
* A fork sees its parent's history cut before the anchor while entries are appended in the order in which they
  are stamped. An entry that is stamped earlier can break this, exactly if it is out of place
  (`Ancestry.ForkInheritsExact`, `Ancestry.LateEntryLost`).
* The error report may be flagged as truncated although no error (`ErrorReport.TruncatedThoughComplete`) or no
  details (`ErrorReport.TruncatedThoughReported`) are missing. Details are missing exactly if there are more than
  eight entries, or an error with details lies behind a node that was left and was not reached otherwise; then
  the flag is set. It is set for nothing exactly if nodes are left without either of the two
  (`ErrorReport.TruncationExact`). Branch labels tell positions apart exactly for child indices below 552490
  (`ErrorReport.BranchLabelsExact`).

## Model

| member | source | states |
|---|---|---|
| EventStream.AfterContinues | internal/plugin/store/postgres/outbox.go:77-126 | continuing the outbox query after any selected event yields exactly the rest of the selection |
| EventStream.PageMeaning | internal/plugin/store/postgres/outbox.go:77-126 | a page is stale iff no row has the cursor; else it holds, in order, the first `limit` later rows of the selected kinds and says whether there are more |
| EventDelivery.StepKeeps | internal/grpc/server.go:7229-7381 | every step of relay, bus, stream and recovery keeps the invariant: all that is wanted after the start and up to the last cursor is sent, what is still owed is in the channel or in the log behind the cursor |
| EventDelivery.RunKeeps | internal/grpc/server.go:7229-7381 | so does every run in which the relay publishes new events in cursor order, and after restarts any events again |
| EventDelivery.NoGap | internal/grpc/server.go:7229-7381 | in every reachable state, after any number of slow-consumer recoveries and relay restarts, each wanted event after the start and up to the last cursor has been sent |
| EventDelivery.CaughtUp | internal/grpc/server.go:7300-7379 | a live stream with an empty open channel has sent every wanted event that the relay has published |
| EventDelivery.ResumedStreams | internal/grpc/server.go:7257-7290 | a client that resumes a new stream after the last cursor of an old one misses nothing between the two |
| EventDelivery.StartKept | internal/grpc/server.go:7257-7290 | the start of the guarantee is fixed by the first subscription, recoveries do not move it |
| EventDelivery.StartIs | internal/grpc/server.go:7229-7290 | for each kind of request, where the guarantee starts and from where the outbox is paged |
| EventDelivery.UnorderedBusSkips | internal/plugin/store/postgres/outbox_relay.go:434-475 | the order of publication is needed: with an out-of-order bus a recovery skips an event for good |
| EventDelivery.RunSendsWanted | internal/grpc/server.go:7495-7531 | every durable event that is sent is committed and wanted |
| EventFilters.SentPasses | internal/grpc/server.go:7326-7379 | over every run, each event that is sent, with a cursor or without, is addressed to the client, not internal, and passes the kind and content filters; all but stream events have their details |
| EventFilters.TransientReceived | internal/grpc/server.go:7326-7379 | an event without a cursor that is offered to a subscribed stream and passes is in every later state sent, or still in the stream's channel, or the stream has ended |
| EventFilters.LiveSendsExactly | internal/grpc/server.go:7326-7379 | over every uninterrupted run of a live stream, what is received is what was buffered and offered, in order; exactly the received events that pass are sent, once and in this order; the last cursor is that of the last received one that passes the filters |
| EventFilters.RecoveryExact | internal/grpc/server.go:7312-7324 | a slow consumer is resumed from its last cursor with a new channel iff recovery is supported and it has a cursor, else it is ended |
| EventResume.ReceivedIsCovered | internal/grpc/server.go:7257-7379 | whichever received event a client stops at, it has by then received everything owed up to its cursor |
| EventResume.MarkerResume | internal/grpc/server.go:7292-7298 | resuming from the cursor of the marker "live" loses nothing, over all later streams, iff every wanted event after the start and up to it was sent before the marker |
| EventResume.MarkerRunsAhead | internal/grpc/server.go:7292-7298 | a concrete run in which that cursor is ahead of what was sent, and a later stream that loses the event |
| EventRepeats.OncePerCall | internal/grpc/server.go:7469-7579 | while the relay publishes each event once, one replay call sends each cursor at most once |
| EventRepeats.RepeatedInCall | internal/plugin/store/postgres/outbox_relay.go:434-475 | a concrete run with a restarted relay in which one replay call sends a cursor twice |
| EventRepeats.SwitchRepeats | internal/grpc/server.go:7287-7379 | at the switch to live delivery, with a relay that publishes once: some continuation without recovery sends a durable event again iff one was sent that is not published yet |
| EventRepeats.RepeatedWhenLive | internal/grpc/server.go:7469-7550 | a concrete run at whose switch this is so |
| EventReplay.SendPage | internal/grpc/server.go:7495-7531 | one page: exactly its wanted events are sent in order, the last cursor and the remembered cursors move over all of it |
| EventReplay.PageOutbox | internal/grpc/server.go:7472-7535 | the paging loop ends and sends exactly the filtered log suffix in cursor order, whatever the batch size; it is stale exactly for an unknown cursor |
| EventReplay.DrainChannel | internal/grpc/server.go:7537-7578 | the drain loop empties the channel, sends what was not paged, and asks for recovery exactly if the channel was closed |
| EventReplay.DrainedMembers | internal/grpc/server.go:7537-7578 | drained events are sent iff they are public, were not paged, and pass every filter |
| EventReplay.LastDrainedMeaning | internal/grpc/server.go:7543-7549 | after draining, the last cursor is that of the last public event that was not paged, also if a filter rejects it |
| EventReplay.ReplayEvents | internal/grpc/server.go:7456-7579 | a whole replay call: paging then draining; it sends no durable event twice iff no two buffered events that pass the filters and were not paged share a cursor |
| EventReplay.CallSendsOnce | internal/grpc/server.go:7537-7578 | the same for the events that a call sends, as a specification |
| EventReplay.RecoveryRepeats | internal/grpc/server.go:7274-7278 | paging after a recovery sends again exactly the durable events that were sent before and lie behind the last cursor |
| EventReplay.PagingRun | internal/grpc/server.go:7472-7535 | the paging loop is a run of the delivery machine with the same effect |
| EventReplay.DrainingRun | internal/grpc/server.go:7537-7578 | the drain loop is a run of the delivery machine with the same effect |
| EventEviction.PageExact | internal/plugin/store/postgres/outbox.go:77-144 | every query with a cursor is either reported as stale or answered as if nothing had been evicted, iff the evicted events that the query selects precede all that are kept |
| EventEviction.StartPage | internal/plugin/store/postgres/outbox.go:96-100 | a query from the start is answered as one after the newest evicted event |
| EventEviction.NewestStored | internal/plugin/store/postgres/outbox.go:148-158 | a snapshot starts at the newest row that is left, or at the start, and the marker "live" carries the same cursor |
| EventEviction.AgeExact | internal/plugin/store/postgres/outbox.go:128-144 | evictions by age, with any cut-off and batches, take the oldest events by cursor iff events were created in cursor order |
| EventEviction.MoveKeeps | internal/grpc/server.go:7229-7381 | every step of the delivery machine over the rows that are left, and every eviction of the oldest rows, keeps the delivery invariant |
| EventEviction.NoGapEvicting | internal/grpc/server.go:7229-7381 | in every state reached under such evictions, each wanted event after the start and up to the last cursor has been sent; the start is what the client asked for, or an evicted event if it asked for the start of the outbox |
| EventEviction.LaterRowVanishes | internal/plugin/store/postgres/outbox.go:128-144 | a concrete run in which an event with a later cursor is evicted first and never sent, with no stale cursor |
| MemorySearch.MergeHits | internal/grpc/server.go:5413-5420 | merging a refetched, longer answer equals merging it once |
| MemorySearch.BestMeaning | internal/grpc/server.go:5413-5420 | for hits in any order a memory keeps the revision and kind of its first hit and the largest of its scores |
| MemorySearch.KeepEligible | internal/grpc/server.go:5426-5457 | the freshness and kind checks keep exactly the eligible memories, in order |
| MemorySearch.SemanticSearch | internal/grpc/server.go:5386-5481 | the doubling loop ends and answers from the fetch at which it is full, exhausted or at the cap |
| MemorySearch.FinalFetch | internal/grpc/server.go:5461-5472 | the loop stops only when it has enough results, the backend is exhausted, or the cap of 1000 is reached |
| MemorySearch.SearchExact | internal/grpc/server.go:5386-5481 | for every ranking and placement of stale hits the answer is the first `limit` of the full de-duplicated filtered ranking, if and only if the hits within the cap hold enough of them, or all; always if the loop stops below the cap |
| MemorySearch.FetchSizes | internal/grpc/server.go:5387-5393 | the fetches ask for four times the limit, at least ten more than it, then twice as many each time, and never for more than a thousand |
| SearchAnswers.SelectedMatches | internal/grpc/server.go:5484-5492 | a kind is selected by the empty selector, by its own name, or by its family before a slash |
| SearchAnswers.AnswerableEligible | internal/grpc/server.go:5530-5557 | a hit is eligible iff its row exists and is of a selected kind, and the store vouches for the hit or it has the row's kind and its positive revision |
| SearchAnswers.ResultsMeaning | internal/grpc/server.go:5413-5460 | for any order of hits: the results descend, hold each memory once, exactly those whose first hit may be answered, with the best score of their hits |
| SearchAnswers.SemanticMeaning | internal/grpc/server.go:5386-5481 | for any ranking: each answered memory may be answered for its first hit; of those whose first hits are among the first thousand, only a full answer leaves some out, and in a descending ranking these score no better |
| RankFusion.FetchQuery | internal/grpc/server.go:5614-5691 | the per-query overfetch loop ends with the de-duplicated hits of its final fetch |
| RankFusion.RankHits | internal/grpc/server.go:5708-5743 | ranking adds the first eligible hits, ranks 1, 2, ... up to the limit, to the pool |
| RankFusion.MultiQuerySearch | internal/grpc/server.go:5559-5794 | the whole search returns the answer of the pool fused from all queries |
| SearchAnswers.RankedMeaning | internal/grpc/server.go:5614-5743 | for any ranking: a query ranks, in order, the first hits that may be answered, and of the first thousand hits leaves out only what is behind a full list |
| FusionOrder.RankedOnce | internal/grpc/server.go:5708-5743 | each memory has at most one rank per query, no rank exceeds the limit, everything ranked is eligible |
| FusionOrder.RankedExact | internal/grpc/server.go:5614-5743 | a query ranks the first eligible memories of its whole ranking, if and only if the hits within the cap hold enough of them, or all |
| FusionOrder.PointsAt | internal/grpc/server.go:5734-5734 | a ranked memory gets exactly 1/(60 + rank), where its rank is one more than its place |
| FusionOrder.FuseFacts | internal/grpc/server.go:5722-5743 | the pool holds exactly the ranked memories, each with the sum of its shares, numbered in order of first ranking |
| FusionOrder.BestIsLargest | internal/grpc/server.go:5735-5737 | the best raw score is the largest positive score among a memory's ranked hits, else 0 |
| FusionOrder.GuardDropsNothing | internal/grpc/server.go:5762-5775 | under a fixed snapshot the final eligibility guard drops nothing |
| FusionOrder.BeforeIsTotal | internal/grpc/server.go:5750-5760 | fused score, best raw score and first ranking order the memories strictly and totally |
| FusionOrder.AnswerOrder | internal/grpc/server.go:5750-5793 | the answer is the `limit` first memories of that order, distinct and complete |
| FusionOrder.AnswerScores | internal/grpc/server.go:5777-5793 | the answered score is the sum over the queries, and an answered memory is ranked by one of them |
| FusionOrder.Dominance | internal/grpc/server.go:5693-5793 | a memory that is ranked ahead of another by every query that ranks the other precedes it |
| FusionAnswers.FuseMatched | internal/grpc/server.go:5738-5741 | the matched purposes of a memory are those of exactly the queries that rank it, without repeats, in order of first occurrence |
| FusionAnswers.FuseInOrder | internal/grpc/server.go:5722-5730 | the pool lists the memories in order of their first ranking |
| FusionAnswers.FusedMeaning | internal/grpc/server.go:5559-5794 | the whole search in terms of the ranked lists: distinct memories that may be answered, with their sums of shares and matched queries, ordered by sum, best raw score and first ranking; what is left out comes behind a full answer |
| Sorting.SortPermutes | internal/grpc/server.go:5751-5760 | the stable sort permutes |
| Sorting.SortSorts | internal/grpc/server.go:5751-5760 | the stable sort sorts by any strict weak order |
| Sorting.SortedIsFixed | internal/grpc/server.go:5458-5460 | the stable sort leaves a sorted list as it is |
| DensityGraph.FinishedRun | internal/knowledge/dbscan.go:71-110 | a labelling run that has passed every point is a correct clustering of the graph |
| DensityGraph.ClaimPoint | internal/knowledge/dbscan.go:93-107 | labelling a pending point keeps the run invariant |
| DensityGraph.UniqueLabelling | internal/knowledge/dbscan.go:66-110 | correctness leaves no freedom: it determines the labels and their number |
| DensityGraph.OrderIndependent | internal/knowledge/dbscan.go:66-110 | clustering renamed points groups the core points and picks the noise alike |
| Dbscan.RangeQuery | internal/knowledge/dbscan.go:124-132 | the neighbours of a point, ascending |
| Dbscan.VisitSeed | internal/knowledge/dbscan.go:93-107 | one turn of the seed loop on the label array keeps the run invariant, and the loop's measure decreases |
| Dbscan.GrowCluster | internal/knowledge/dbscan.go:93-107 | the growing seed queue is worked off and the cluster is closed |
| Dbscan.LabelPoints | internal/knowledge/dbscan.go:66-110 | every run ends with a correct labelling |
| Dbscan.GroupByLabel | internal/knowledge/dbscan.go:112-119 | the result groups the indices by label, in order |
| Dbscan.RunDBSCAN | internal/knowledge/dbscan.go:55-121 | for a symmetric distance the result is the density clustering of the points |
| Dbscan.GraphMeaning | internal/knowledge/dbscan.go:76-80 | points within epsilon of each other are near, and a point with at least `minPoints` points within epsilon is a core point |
| Dbscan.ResultMeaning | internal/knowledge/dbscan.go:55-121 | each index is in exactly one non-empty cluster or in the noise; noise is what is neither core nor near a core point; core points share a cluster iff a chain of neighbouring core points joins them; other members are near a core point of their cluster |
| Dbscan.ResultUnique | internal/knowledge/dbscan.go:55-121 | the result is determined by the input |
| Dbscan.RunOrderIndependent | internal/knowledge/dbscan.go:55-121 | for any order of the vectors the results have the same core points together and the same noise |
| Diff.BuildOwners | internal/knowledge/diff.go:48-53 | a source belongs to the last listed cluster that has it |
| Diff.OwnersMeaning | internal/knowledge/diff.go:48-53 | a source is owned iff some cluster has it, and by the last one that has it |
| Diff.SharedMeaning | internal/knowledge/diff.go:57-65 | an overlap counts the members of the new cluster whose sources the existing one owns |
| Diff.CollectOverlaps | internal/knowledge/diff.go:55-74 | exactly the non-zero overlaps, each once, in any order of map iteration |
| Diff.SortOverlaps | internal/knowledge/diff.go:122-135 | the in-place insertion sort leaves an ordered permutation |
| Diff.MatchOverlaps | internal/knowledge/diff.go:80-100 | the matching loop picks the greedy matching |
| Diff.GreedyMatches | internal/knowledge/diff.go:80-100 | what is picked is a matching of overlapping pairs with ratio at least one half |
| Diff.GreedyStable | internal/knowledge/diff.go:84-99 | each rejected overlap with ratio at least one half loses its new or its existing cluster to one that comes earlier |
| Diff.DiffClusters | internal/knowledge/diff.go:41-120 | the whole difference |
| Diff.DiffStable | internal/knowledge/diff.go:55-100 | every overlap of at least half of the new cluster has its new or existing cluster matched by one with no smaller fraction, and at the same fraction no smaller count |
| Diff.BetterMeaning | internal/knowledge/diff.go:122-135 | overlaps are compared by fraction and then count; a majority is at least half of the members |
| Diff.UpdatesMeaning | internal/knowledge/diff.go:84-99 | each update gives an existing cluster the points of a new one that shares at least half of them, and the fraction |
| Diff.DiffPartitions | internal/knowledge/diff.go:102-117 | updated and died partition the existing ids, updated and born the new labels |
| Diff.GreedyIsStrict | internal/knowledge/diff.go:37-40 | what is matched is the matching with the documented guard (a fraction that exceeds one half), followed by picks of exactly one half |
| Diff.StrictExact | internal/knowledge/diff.go:88-91 | the two matchings are equal iff every pick exceeds one half, iff every overlap of one half shares a cluster with a documented match |
| Diff.DiffDocumented | internal/knowledge/diff.go:80-100 | the difference is the documented one iff no update has an overlap ratio of one half |
| Diff.HalfIsEnough | internal/knowledge/diff.go:88-91 | an input on which they differ |
| Clusterer.BuildMembers | internal/knowledge/clusterer.go:264-279 | the members are the sources of the indices, in order |
| Clusterer.SourcesInOrder | internal/knowledge/clusterer.go:264-279 | the members are the sources of the points, in order |
| Clusterer.KnowledgeStore.UpdateCluster | internal/knowledge/postgres_store.go:190-212 | replaces row and members one after the other, and the members only if some are given; what a failure can leave |
| Clusterer.KnowledgeStore.SaveCluster | internal/knowledge/postgres_store.go:170-188 | stores row and members one after the other; what a failure can leave |
| Clusterer.ApplyBirths | internal/knowledge/clusterer.go:155-171 | births are stored under new ids |
| Clusterer.ApplyUpdates | internal/knowledge/clusterer.go:173-190 | updates replace the members of their clusters; a failed one may leave a cluster without members, and touches no other |
| Clusterer.ApplyDeaths | internal/knowledge/clusterer.go:192-198 | deaths are removed |
| Clusterer.RefreshKeywords | internal/knowledge/clusterer.go:210-262 | refreshing keywords keeps every member set, also if it fails half-way |
| Clusterer.AppliedMirrors | internal/knowledge/clusterer.go:153-198 | applying a difference to any earlier contents leaves the new clusters, each under exactly one id |
| Clusterer.RepeatedPass | internal/knowledge/clusterer.go:113-208 | against a store that holds the clusters already, nothing is born or dies and every cluster is matched with itself |
| Clusterer.PassCounted | internal/knowledge/clusterer.go:153-207 | births, updates and deaths are as many as the new, kept and dropped ids |
| Clusterer.ClusterUser | internal/knowledge/clusterer.go:113-208 | a successful pass leaves exactly the DBSCAN clusters as stored members and member counts, and returns the numbers of new, kept and dropped ids; a further one over the same records has no births and no deaths and keeps each id on its members |
| Ancestry.BuildConversationAncestrySegments | internal/model/ancestry.go:26-60 | the loop builds the self row and the edited copies, or rejects an unnamed parent row |
| Ancestry.AnchorDepth | internal/plugin/store/postgres/postgres.go:4252-4280 | the depth of the ancestor that owns a visible entry, or none |
| Ancestry.StepKeepsValid | internal/model/ancestry.go:26-60 | forks, and appends at any free place of the entry order, keep every ancestry well formed |
| Ancestry.ForkShows | internal/plugin/store/postgres/postgres.go:4026-4059 | an entry is visible to a fork iff it is visible to the parent and strictly before the anchor, iff it is in place |
| Ancestry.ForkInherits | internal/model/ancestry.go:26-60 | over all histories on time, a fork's visible history is its parent's, cut strictly before the anchor, whichever ancestor owns the anchor |
| Ancestry.ForkInheritsExact | internal/model/ancestry.go:26-60 | over all histories, with entries stamped in any order, this holds iff every entry that the parent sees lies on its owner's side of the anchor |
| Ancestry.LateEntryLost | internal/model/ancestry.go:41-47 | a concrete history with a late entry that a fork does not inherit |
| Ancestry.BlankForkInherits | internal/model/ancestry.go:39-47 | without an anchor the fork sees what the parent inherited, and nothing of the parent's own |
| Ancestry.ForkRecordsAnchor | internal/model/ancestry.go:48-57 | the direct anchor is recorded on the copied self row of the parent only |
| Ancestry.HistoryIsFinal | internal/model/ancestry.go:26-60 | on time, no later fork or append, to any ancestor or elsewhere, changes what a conversation sees; it only gains the entries appended to itself, at the end |
| Ancestry.AppendShows | internal/plugin/store/postgres/postgres.go:4026-4059 | an append at any place is visible to a conversation iff it is its own, or precedes its boundary on the ancestor that is appended to |
| Ancestry.HistoryExact | internal/model/ancestry.go:26-60 | over any history, what a conversation sees changes by exactly those entries, and stays as it is iff there are none |
| Resumer.Store.CleanupExpired | internal/resumer/temp_file_store.go:373-395 | exactly the complete recordings whose retention has passed are dropped |
| Resumer.Store.CompleteLocked | internal/resumer/temp_file_store.go:276-304 | completing a recording, once; its locator is removed with it |
| Resumer.Store.RecorderWithAddress | internal/resumer/temp_file_store.go:119-155 | starting a recorder with every outcome of its calls |
| Resumer.Store.HasResponseInProgress | internal/resumer/temp_file_store.go:90-103 | cleans up and reports |
| Resumer.Recorder.Record | internal/resumer/temp_file_store.go:242-260 | appends a token, or part of it if the write fails |
| Resumer.Recorder.Complete | internal/resumer/temp_file_store.go:262-274 | completes at most once |
| Replay.ReplayFromFile | internal/resumer/temp_file_store.go:330-371 | the replay loop over any sequence of states of its recording |
| ReplaySafety.StepKeeps | internal/resumer/temp_file_store.go:119-155 | every step keeps the invariant; files only grow, complete recordings never change |
| ReplaySafety.RunKeeps | internal/resumer/temp_file_store.go:119-155 | so does every run |
| ReplaySafety.OneRecording | internal/resumer/temp_file_store.go:90-155 | in every run a conversation has at most one incomplete recording; a lookup finds it and its own locator is published; a response is in progress iff it exists |
| ReplaySafety.LocatorsExact | internal/resumer/temp_file_store.go:119-155 | over every run in which no removal fails, a locator is published for exactly the conversations with an incomplete recording, and names its file |
| ReplaySafety.LookupExact | internal/resumer/temp_file_store.go:157-184 | a lookup replays the latest recording from its start, unless it is complete and its retention has passed |
| ReplaySafety.SupersededIsInert | internal/resumer/temp_file_store.go:125-127 | asking for a recorder completes all older ones, and nothing they do later changes the store, the new recording or its locator |
| ReplaySafety.StaysAvailable | internal/resumer/temp_file_store.go:373-395 | a complete recording can be replayed until its retention has passed, whatever else happens |
| ReplaySafety.ReplayExact | internal/resumer/temp_file_store.go:330-371 | over every interleaving: within one read per gap the sent bytes are a prefix of the recorded ones; a replay that ends has sent all of them iff no gap was larger |
| ReplaySafety.TurnInterleaved | internal/resumer/temp_file_store.go:345-364 | what is recorded between the poll and the read does not change what is sent |
| ReplaySafety.LoopIsReplay | internal/resumer/temp_file_store.go:330-371 | whatever other recorders and replays do before each poll and each read, the loop run on what it polled is a replay of the machine |
| ReplaySafety.LateReplay | internal/resumer/temp_file_store.go:425-441 | a replay of a complete recording sends its first mebibyte and ends |
| ReplaySafety.FileHoldsTokens | internal/resumer/temp_file_store.go:242-260 | the size counts the accepted bytes, and the file is the accepted tokens iff failed writes left nothing |
| ReplaySafety.IntactStep | internal/resumer/temp_file_store.go:254-258 | a step leaves the recorded bytes equal to the accepted tokens iff they were, and the token it accepts is in place: it begins what failed writes left before it, followed by itself |
| ReplaySafety.RecordedExact | internal/resumer/temp_file_store.go:242-260 | over every run, the recorded bytes are the accepted tokens iff every token was in place |
| ReplaySafety.ContinuationExact | internal/resumer/temp_file_store.go:242-260 | from any point on, they stay so over every continuation without failed writes, and over every next token of one byte, iff they are so now and the recording is complete or failed writes left nothing |
| ReplaySafety.ReplaySendsTokens | internal/resumer/temp_file_store.go:242-371 | end to end, a replay that ends has sent exactly the accepted tokens iff every gap fitted one read and every token was in place |
| ReplaySafety.LongTokenIsCut | internal/resumer/temp_file_store.go:351-355 | a concrete run loses the end of a long token |
| ReplaySafety.DebrisIsRecorded | internal/resumer/temp_file_store.go:254-258 | a concrete run records what a failed write left |
| ReplaySafety.DebrisBehind | internal/resumer/temp_file_store.go:254-258 | a concrete run in which a failed write leaves a byte and shifts nothing |
| ErrorGraph.PushChildren | internal/operationevent/errors.go:153-160 | children are pushed in reverse, with their branches and depths |
| ErrorGraph.Traverse | internal/operationevent/errors.go:101-161 | on every graph, cyclic or infinite, the stack loop ends and computes the recursive preorder walk with its budget |
| ErrorGraph.CollectErrorDetails | internal/operationevent/errors.go:97-177 | the report, the compatibility entry and the flag, from the walk |
| ErrorReport.TraversalMeaning | internal/operationevent/errors.go:112-161 | at most 64 errors are visited, 64 if nodes are left, at the place that branch and depth say, no reference twice, in preorder |
| ErrorReport.LeftExact | internal/operationevent/errors.go:112-127 | on every graph, the root and all that visited errors wrap are nil, visited or repeated references iff the nodes left on the stack are |
| ErrorReport.ReachableVisited | internal/operationevent/errors.go:112-127 | if no new node is left, every error that any branch reaches is visited, and once if it is a reference |
| ErrorReport.MissedExact | internal/operationevent/errors.go:113-116 | nodes are left only after 64 visits, and the walk misses an error that some branch reaches iff one of them is neither nil nor visited nor a repeated reference |
| ErrorReport.ReachableFound | internal/operationevent/errors.go:112-161 | every error that a branch reaches was visited, or lies behind a node that was left |
| ErrorReport.TruncationExact | internal/operationevent/errors.go:97-177 | on the outcome of the collection: details are missing from the report iff there are more than eight entries, or an error with details lies behind a left node and was not reached; missing details are always flagged; and exactly when the flag agrees |
| ErrorReport.EntriesMeaning | internal/operationevent/errors.go:129-151 | exactly one entry for each visited error with details, in order |
| ErrorReport.ReportOrder | internal/operationevent/errors.go:162-175 | the report holds the first eight entries by decreasing depth, then preorder; the others come after all of them |
| ErrorReport.ReportMeaning | internal/operationevent/errors.go:129-175 | the report in terms of the visits: at most eight entries with the details, branch and depth of visited errors, by decreasing depth and preorder; every other visited error with details comes behind a full report |
| ErrorReport.CompatibilityMeaning | internal/operationevent/errors.go:141-144 | the compatibility entry is that of the first visited error with details, and missing iff there is none |
| ErrorReport.TruncatedThoughComplete | internal/operationevent/errors.go:113-116 | a chain of 64 errors is flagged as truncated though all were visited |
| ErrorReport.TruncatedThoughReported | internal/operationevent/errors.go:113-116 | every longer chain of which only the first error has details is flagged, and misses errors, though no details are missing |
| ErrorReport.BranchLabelsExact | internal/operationevent/errors.go:155-158 | rendered branches with child indices below N tell positions apart iff N is at most 552490 |
| ErrorReport.LabelMeaning | internal/operationevent/errors.go:254-260 | below 100 a label is the decimal numeral, and labels are joined by dots |
| ErrorReport.LabelsCollide | internal/operationevent/errors.go:254-260 | the first two child indices whose labels are equal |
| Mseh.VarintLen | internal/dataencryption/mseh.go:139-146 | the length of the written varint, at most five bytes |
| Mseh.PutVarint32 | internal/dataencryption/mseh.go:128-137 | writes exactly the varint into the buffer and nothing else |
| Mseh.ReadVarint32 | internal/dataencryption/mseh.go:148-161 | the reader loop consumes what the specification reads |
| Mseh.VarintRoundTrip | internal/dataencryption/mseh.go:128-161 | the reader inverts the writer on every uint32 and stops behind it |
| Mseh.ReadVarintMeaning | internal/dataencryption/mseh.go:148-161 | for all bytes: what is accepted, its value as a uint32, and when the input is too short |
| Mseh.EncodeHeader | internal/dataencryption/mseh.go:54-68 | the buffer holds the magic, the length and the payload |
| Mseh.ReadHeader | internal/dataencryption/mseh.go:91-124 | the result and the bytes consumed, with every error case |
| Mseh.FrameRoundTrip | internal/dataencryption/mseh.go:54-124 | reading a written frame gives it back and stops behind it iff the payload has at most 4096 bytes |
| Mseh.HeaderRoundTrip | internal/dataencryption/mseh.go:54-124 | likewise for headers, whose longer forms are reported as too long |
| Mseh.ReadFrameMeaning | internal/dataencryption/mseh.go:91-114 | the shape of every byte string that is read as a frame |
| Mseh.ReadFrameCases | internal/dataencryption/mseh.go:91-114 | every outcome by the bytes read: no magic, an unended length, one above 4096, too few bytes, or the payload |
| Mseh.HeaderCases | internal/dataencryption/mseh.go:91-124 | no header iff no magic; a found header iff the payload decodes; all else is an error |
| Mseh.AppendFrame | internal/dataencryption/mseh.go:80-86 | appends the big-endian length and the value |
| Mseh.FieldAAD | internal/dataencryption/mseh.go:71-78 | the four frames |
| Mseh.AADLayout | internal/dataencryption/mseh.go:71-86 | label, header, domain and identity in this order, each behind its length of four bytes, highest first |
| Mseh.LabelIs | internal/dataencryption/mseh.go:73-73 | the label |
| Mseh.AADInjective | internal/dataencryption/mseh.go:71-86 | the associated data is injective in header, domain and identity for parts under 2^32 bytes |
| Mseh.AADCollides | internal/dataencryption/mseh.go:80-84 | at 2^32 bytes it is not |
| Namespace.EncodeNamespace | internal/episodic/namespace.go:20-35 | encodes, or reports no segments, too many, or the first empty one |
| Namespace.EscapeMeaning | internal/episodic/namespace.go:32-32 | letters, digits and ten signs are kept; every other byte becomes a percent sign and two upper-case hexadecimal digits |
| Namespace.EscapeConcat | internal/episodic/namespace.go:32-32 | segments are escaped byte by byte |
| Namespace.UnescapeFails | internal/episodic/namespace.go:44-48 | a part cannot be decoded iff one of its percent signs is not followed by two hexadecimal digits |
| Namespace.DecodeNamespace | internal/episodic/namespace.go:38-52 | decodes every part, or fails |
| Namespace.DecodeFails | internal/episodic/namespace.go:38-52 | decoding fails iff the input is empty or one of its parts is malformed |
| Namespace.NamespaceRoundTrip | internal/episodic/namespace.go:20-52 | decoding an encoded namespace gives its segments back |
| Namespace.EncodingInjective | internal/episodic/namespace.go:20-35 | encoding is injective |
| Namespace.TruncateMeaning | internal/episodic/namespace.go:66-72 | truncating an encoding is encoding the first segments |
| Namespace.MatchesSuffix | internal/episodic/namespace.go:75-90 | the loop decides the suffix of the decoded segments |
| Namespace.SuffixMeaning | internal/episodic/namespace.go:75-90 | which on encoded namespaces is the suffix of lists |
| NamespacePrefix.PatternMeaning | internal/episodic/namespace.go:57-62 | with backslash as the escape character an encoded namespace matches the pattern of an encoded prefix iff its segments strictly extend the prefix's, whatever metacharacters they hold |
| NamespacePrefix.PrefixSearch | internal/plugin/store/postgres/episodic_store.go:486-492 | with the added equality, exactly the namespaces under the prefix are found |
| NamespacePrefix.UnescapedPatternMeaning | internal/plugin/store/sqlite/episodic_store.go:486-486 | without an escape character, the bytes that the pattern matches, and when it matches nothing |
| NamespacePrefix.UnescapedComplete | internal/plugin/store/sqlite/episodic_store.go:486-486 | it finds every namespace under the prefix iff the encoded prefix holds no metacharacter |
| NamespacePrefix.UnescapedExact | internal/plugin/store/sqlite/episodic_store.go:486-486 | it finds exactly the namespaces under the prefix iff the encoded prefix holds neither a metacharacter nor a letter |
| NamespacePrefix.UnescapedSearchExact | internal/plugin/store/sqlite/episodic_store.go:486-486 | with the equality of the query, the same for the prefix and what lies under it |
| NamespacePrefix.UnescapedPatternOvermatches | internal/plugin/store/sqlite/episodic_store.go:486-486 | a concrete namespace in another case that is found too |
| NamespacePrefix.UnescapedPatternMisses | internal/plugin/store/sqlite/episodic_store.go:486-486 | a concrete descendant that is not found |
| KindSelector.FamilyMatches | internal/grpc/server.go:5484-5492 | a family selector matches a canonical kind iff it is its family |
| KindSelector.TrimMeaning | internal/episodic/policy.go:71-73 | trimming takes away all white space at both ends and nothing else |
| KindSelector.KindMeaning | internal/episodic/kind.go:50-93 | which names are canonical kinds |
| KindSelector.IntersectionMeaning | internal/episodic/policy.go:71-110 | the intersection accepts a canonical kind iff both selectors do |
| KindSelector.EmptyMeaning | internal/episodic/policy.go:71-110 | it is reported empty iff no canonical kind satisfies both |
| KindSelector.IntersectionValid | internal/episodic/policy.go:71-110 | the effective selector is valid and trimmed |
| KindSelector.IntersectionAlgebra | internal/episodic/policy.go:71-110 | in meaning it is commutative, associative and idempotent, and never broadens the caller |

## Left out

* gRPC and HTTP plumbing, authorization, proto conversion, metrics, logging, configuration and CRUD handlers: thin calls.
* Events: filters, visibility, details and their loading are flags of an event; a failure of any of them, or of sending, ends the stream and is the action `Stop`. The rows of the initial snapshot are not modelled, only its boundary cursor. Eviction is modelled for rows that have a cursor; the PostgreSQL store also evicts rows that the relay has not numbered yet, and a relay that restarts on an empty table numbers events from 1 again. The relay publishes new events in cursor order, and after a restart or a failed publication any earlier events again, as `internal/plugin/store/postgres/outbox_relay.go` does; how far back it starts is left open. A replay call in `EventReplay` drains what is buffered when it starts draining; events that arrive meanwhile are steps of the machine in `EventDelivery`. The user and the admin replay functions differ only in the flags, so one model stands for both.
* Search: scores are reals, so rounding of fused scores is not modelled; the backend is a fixed ranking whose prefixes answer its queries, and the primary store a fixed snapshot. Cancellation, embedding and backend errors end a search and are left out.
* Clustering: cosine distance is an abstract symmetric relation (it need not be reflexive), ratios are reals, and centroids, distances, trends, source types and keyword extraction have no part in the member sets; the keywords that a refresh stores are arbitrary. The counters that accompany an error are left out. New ids are taken to be unused. A store operation that fails can leave a cluster without members, as in the PostgreSQL store; a load fails as a whole. A user without records keeps the stored clusters, as in the code.
* Ancestry: an entry is identified with its place in the entry order (created_at, seq, id). Access checks, channels and clients are left out.
- Resumer.Recorder.Complete: the error that removing the locator or closing the file may return does not change the state and is not returned.
* Recordings: redirection to another node, cancellation channels, clean-up of temp files at start-up, the file handle of an abandoned recorder, expiry of locators and the race of their refresh with their removal. One node is modelled; a node that shares the locator store could replace a locator.
* Replays: a read error and a caller that leaves both stop the replay without a claim about the rest.
* Error reports: sanitising of texts; an error's details are its sanitised ones. Two runs of `Unwrap` on one error give the same children. That different errors have different identities is a condition of the theorems on reachable errors and on the flag.
* MSEH: protobuf encoding is a pair of inverse functions, whose payloads stay below 2^32 bytes; ciphers are left out.
* Namespaces: Go's string library (split, join, percent-encoding, replacing) is written as functions on bytes. A truncation to a negative depth, which the callers exclude, is left out.
* Policies: OPA evaluation and the loader.
