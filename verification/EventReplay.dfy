/** One replay call on a fixed outbox: paging, then draining the channel
    (internal/grpc/server.go:7456-7579 and 7581-7697). */
module EventReplay {
  import opened Wrappers
  import opened EventStream
  import opened EventDelivery

  datatype Outcome = Continue | Finished | Recovery

  /** What the client has received, and the last cursor of the stream. */
  class Session {
    var sent: seq<Event>
    var lastCursor: Option<nat>

    constructor ()
      ensures sent == [] && lastCursor == None
    {
      sent, lastCursor := [], None;
    }
  }

  /** The receiving end of a bus subscription; what is buffered can be read after it is closed. */
  class Subscription {
    var buffer: seq<Event>
    var closed: bool

    constructor (buffer: seq<Event>, closed: bool)
      ensures this.buffer == buffer && this.closed == closed
    {
      this.buffer, this.closed := buffer, closed;
    }
  }

  // ---- Specification ---------------------------------------------------------------------------

  function LastOf(events: seq<Event>, last: Option<nat>): Option<nat> {
    if events == [] then last else Some(events[|events| - 1].cursor)
  }

  function LastCursor(events: seq<Event>, cursor: nat): nat {
    if events == [] then cursor else events[|events| - 1].cursor
  }

  /** The drain loop sends this event: it was not paged before and passes the filters. */
  predicate Unpaged(e: Event, seen: set<nat>) {
    Fresh(e, seen) && e.kindOK && e.matches && e.enriched
  }

  function Drained(buffer: seq<Event>, seen: set<nat>): seq<Event> {
    if buffer == [] then []
    else
      var e := buffer[0];
      (if Unpaged(e, seen) then [e] else []) + Drained(buffer[1..], seen)
  }

  predicate Fresh(e: Event, seen: set<nat>) {
    !e.isInternal && (e.cursor == 0 || e.cursor !in seen)
  }

  function LastDrained(buffer: seq<Event>, seen: set<nat>, last: Option<nat>): Option<nat> {
    if buffer == [] then last
    else
      var e := buffer[0];
      LastDrained(buffer[1..], seen, if Fresh(e, seen) && e.cursor != 0 then Some(e.cursor) else last)
  }

  lemma {:induction false} SendableAppend(a: seq<Event>, b: seq<Event>)
    ensures Sendable(a + b) == Sendable(a) + Sendable(b)
  {
    if b == [] {
      assert a + b == a;
    } else {
      var front, last := b[..|b| - 1], b[|b| - 1];
      SendableAppend(a, front);
      assert (a + b)[..|a + b| - 1] == a + front && (a + b)[|a + b| - 1] == last;
    }
  }

  // ---- The loops -------------------------------------------------------------------------------

  ghost predicate AllKindsOK(events: seq<Event>) {
    forall i | 0 <= i < |events| :: events[i].kindOK
  }

  /** Sends one page, and returns the next cursor and the paged cursors. */
  method SendPage(session: Session, events: seq<Event>, after: nat, seen0: set<nat>) returns (cursor: nat, seen: set<nat>)
    requires AllKindsOK(events)
    modifies session
    ensures session.sent == old(session.sent) + Sendable(events)
    ensures session.lastCursor == LastOf(events, old(session.lastCursor))
    ensures cursor == LastCursor(events, after) && seen == seen0 + Cursors(events)
  {
    cursor, seen := after, seen0;
    for i := 0 to |events|
      invariant session.sent == old(session.sent) + Sendable(events[..i])
      invariant session.lastCursor == LastOf(events[..i], old(session.lastCursor))
      invariant cursor == LastCursor(events[..i], after) && seen == seen0 + Cursors(events[..i])
    {
      var e := events[i];
      assert events[..i + 1] == events[..i] + [e] && events[..i + 1][..i] == events[..i];
      cursor := e.cursor;
      seen := seen + {e.cursor};
      session.lastCursor := Some(e.cursor);
      if !e.routed {
        continue;
      }
      if !e.matches {
        continue;
      }
      if !e.enriched {
        continue;
      }
      session.sent := session.sent + [e];
    }
    assert events[..|events|] == events;
  }

  /** The paging loop has handled `done` of the events after `after` and continues from `cursor`. */
  ghost predicate Position(log: seq<Event>, after: nat, done: nat, cursor: nat) {
    var all := After(log, after);
    && done <= |all| && After(log, cursor) == all[done..]
    && cursor == if done == 0 then after else all[done - 1].cursor
  }

  lemma DropDrop(s: seq<Event>, m: nat, n: nat)
    requires m + n <= |s|
    ensures s[m..][n..] == s[m + n..]
    ensures n > 0 ==> s[m..][n - 1] == s[m + n - 1]
  {
  }

  lemma NextPosition(log: seq<Event>, after: nat, done: nat, cursor: nat, n: nat)
    requires Sorted(log) && Position(log, after, done, cursor) && n <= |After(log, cursor)|
    ensures Position(log, after, done + n, LastCursor(Take(After(log, cursor), n), cursor))
  {
    hide After, Sorted;
    DropDrop(After(log, after), done, n);
    if n > 0 {
      AfterContinues(log, cursor, n - 1);
    }
  }

  /** What is sent, the last cursor and the paged cursors once `done` of the events `all` are handled. */
  ghost predicate Progress(all: seq<Event>, done: nat, sent0: seq<Event>, last0: Option<nat>,
                           sent: seq<Event>, last: Option<nat>, seen: set<nat>) {
    && done <= |all|
    && sent == sent0 + Sendable(all[..done])
    && last == LastOf(all[..done], last0)
    && seen == Cursors(all[..done])
  }

  function Batch(all: seq<Event>, done: nat, n: nat): seq<Event>
    requires done + n <= |all|
  {
    all[done..][..n]
  }

  lemma TakePage(all: seq<Event>, done: nat, n: nat, sent0: seq<Event>, last0: Option<nat>,
                 sent: seq<Event>, last: Option<nat>, seen: set<nat>)
    requires Progress(all, done, sent0, last0, sent, last, seen) && done + n <= |all|
    ensures var page := Batch(all, done, n);
            Progress(all, done + n, sent0, last0, sent + Sendable(page), LastOf(page, last), seen + Cursors(page))
  {
    var before, page := all[..done], all[done..][..n];
    PrefixPlus(all, done, n);
    SendableAppend(before, page);
    CursorsAppend(before, page);
    LastAppend(before, page, last0);
    hide Sendable, Cursors, LastOf;
    Regroup(sent0, Sendable(before), Sendable(page));
  }

  lemma PrefixPlus(all: seq<Event>, done: nat, n: nat)
    requires done + n <= |all|
    ensures all[..done] + all[done..][..n] == all[..done + n]
  {
  }

  lemma LastAppend(a: seq<Event>, b: seq<Event>, last: Option<nat>)
    ensures LastOf(a + b, last) == LastOf(b, LastOf(a, last))
  {
    assert b == [] ==> a + b == a;
  }

  lemma CursorsAppend(a: seq<Event>, b: seq<Event>)
    ensures Cursors(a + b) == Cursors(a) + Cursors(b)
  {
    forall e ensures e in a + b <==> e in a || e in b {}
  }

  /** Only the cursor that the client sent can be stale. */
  lemma OnlyFirstStale(log: seq<Event>, after: nat, done: nat, cursor: nat)
    requires Sorted(log) && Position(log, after, done, cursor)
    ensures done > 0 ==> HasCursor(log, cursor)
  {
    AfterMembers(log, after);
    if done > 0 {
      var e := After(log, after)[done - 1];
      assert e in After(log, after);
      var i :| 0 <= i < |log| && log[i] == e;
    }
  }

  /** The state of the paging loop. */
  ghost predicate Paged(log: seq<Event>, after: nat, done: nat, cursor: nat, sent0: seq<Event>, last0: Option<nat>,
                        sent: seq<Event>, last: Option<nat>, seen: set<nat>) {
    && Position(log, after, done, cursor)
    && Progress(After(log, after), done, sent0, last0, sent, last, seen)
    && (done > 0 ==> after == 0 || HasCursor(log, after))
  }

  ghost function Left(log: seq<Event>, cursor: nat): nat {
    |After(log, cursor)|
  }

  /** One iteration of the paging loop. */
  lemma PagingStep(log: seq<Event>, after: nat, done: nat, cursor: nat, limit: nat, sent0: seq<Event>, last0: Option<nat>,
                  sent: seq<Event>, last: Option<nat>, seen: set<nat>)
    requires Sorted(log) && limit > 0 && Paged(log, after, done, cursor, sent0, last0, sent, last, seen)
    ensures var page := ListOutboxEvents(log, cursor, limit);
            && (page.Stale? ==> after != 0 && !HasCursor(log, after) && sent == sent0 && last == last0)
            && (page.Page? ==>
                  var events := page.events;
                  var next := LastCursor(events, cursor);
                  && Paged(log, after, done + |events|, next, sent0, last0,
                           sent + Sendable(events), LastOf(events, last), seen + Cursors(events))
                  && AllKindsOK(events)
                  && (after == 0 || HasCursor(log, after))
                  && (page.hasMore ==> Left(log, next) < Left(log, cursor))
                  && (!page.hasMore ==> done + |events| == Left(log, after)))
  {
    hide After, Sendable, Cursors, LastOf, LastCursor, ListOutboxEvents, Sorted, HasCursor, Position, Progress, AllKindsOK, Batch;
    var page, all := ListOutboxEvents(log, cursor, limit), After(log, after);
    PageIs(log, cursor, limit);
    OnlyFirstStale(log, after, done, cursor);
    AtStart(log, after, done, cursor);
    if page.Page? {
      PagingMoves(log, after, done, cursor, limit);
      TakePage(all, done, |page.events|, sent0, last0, sent, last, seen);
    } else {
      NothingTaken(all, sent0, last0, sent, last, seen);
    }
  }

  lemma AtStart(log: seq<Event>, after: nat, done: nat, cursor: nat)
    requires Position(log, after, done, cursor)
    ensures done == 0 ==> cursor == after
  {
  }

  lemma PagingMoves(log: seq<Event>, after: nat, done: nat, cursor: nat, limit: nat)
    requires Sorted(log) && limit > 0 && Position(log, after, done, cursor)
    requires ListOutboxEvents(log, cursor, limit).Page?
    ensures var page, all := ListOutboxEvents(log, cursor, limit), After(log, after);
            var events := page.events;
            var next := LastCursor(events, cursor);
            && done + |events| <= |all| && events == Batch(all, done, |events|)
            && Position(log, after, done + |events|, next)
            && AllKindsOK(events)
            && (page.hasMore ==> Left(log, next) < Left(log, cursor))
            && (!page.hasMore ==> done + |events| == |all|)
            && (done == 0 ==> cursor == after)
  {
    hide Sorted, ListOutboxEvents, HasCursor, After, Batch, Position, LastCursor, AllKindsOK, Left, Take;
    var page := ListOutboxEvents(log, cursor, limit);
    var n := Min(limit, |After(log, cursor)|);
    PageIs(log, cursor, limit);
    TakeMin(After(log, cursor), limit);
    PageAt(log, after, done, cursor, n);
    NextPosition(log, after, done, cursor, n);
    PositionLeft(log, after, done, n, cursor, LastCursor(page.events, cursor));
  }

  lemma PositionLeft(log: seq<Event>, after: nat, done: nat, n: nat, cursor: nat, next: nat)
    requires Position(log, after, done, cursor) && Position(log, after, done + n, next)
    ensures n > 0 ==> Left(log, next) < Left(log, cursor)
    ensures done == 0 ==> cursor == after
  {
  }

  lemma NothingTaken(all: seq<Event>, sent0: seq<Event>, last0: Option<nat>,
                     sent: seq<Event>, last: Option<nat>, seen: set<nat>)
    ensures Progress(all, 0, sent0, last0, sent, last, seen) ==> sent == sent0 && last == last0
  {
    assert all[..0] == [] && sent0 + [] == sent0;
  }

  /** Reads and sends one page. */
  method PageOnce(log: seq<Event>, session: Session, after: nat, limit: nat, cursor0: nat, seen0: set<nat>,
                  ghost done0: nat, ghost sent0: seq<Event>, ghost last0: Option<nat>)
    returns (page: Page, cursor: nat, seen: set<nat>, ghost done: nat)
    requires Sorted(log) && limit > 0
    requires Paged(log, after, done0, cursor0, sent0, last0, session.sent, session.lastCursor, seen0)
    modifies session
    ensures page == ListOutboxEvents(log, cursor0, limit)
    ensures page.Stale? ==> after != 0 && !HasCursor(log, after) && session.sent == sent0 && session.lastCursor == last0
    ensures page.Page? ==>
      && Paged(log, after, done, cursor, sent0, last0, session.sent, session.lastCursor, seen)
      && (after == 0 || HasCursor(log, after))
      && (page.hasMore ==> Left(log, cursor) < Left(log, cursor0))
      && (!page.hasMore ==> done == Left(log, after))
  {
    hide *;
    page, cursor, seen, done := ListOutboxEvents(log, cursor0, limit), cursor0, seen0, done0;
    PagingStep(log, after, done0, cursor0, limit, sent0, last0, session.sent, session.lastCursor, seen0);
    if page.Page? {
      cursor, seen := SendPage(session, page.events, cursor0, seen0);
      done := done0 + |page.events|;
    }
  }

  /** Pages the outbox; the result does not depend on the batch size. */
  method PageOutbox(log: seq<Event>, session: Session, after: nat, batchSize: int) returns (stale: bool, seen: set<nat>)
    requires Sorted(log)
    modifies session
    ensures stale <==> after != 0 && !HasCursor(log, after)
    ensures stale ==> session.sent == old(session.sent) && session.lastCursor == old(session.lastCursor)
    ensures !stale ==>
      && session.sent == old(session.sent) + Sendable(After(log, after))
      && session.lastCursor == LastOf(After(log, after), old(session.lastCursor))
      && seen == Cursors(After(log, after))
  {
    var limit: nat := if batchSize <= 0 then 1000 else batchSize;
    var cursor: nat := after;
    seen := {};
    ghost var sent0, last0 := session.sent, session.lastCursor;
    ghost var done: nat := 0;
    StartPaging(log, after, sent0, last0);
    hide *;
    while true
      invariant Paged(log, after, done, cursor, sent0, last0, session.sent, session.lastCursor, seen)
      decreases Left(log, cursor)
    {
      var page;
      page, cursor, seen, done := PageOnce(log, session, after, limit, cursor, seen, done, sent0, last0);
      if page.Stale? {
        return true, seen;
      }
      if !page.hasMore {
        FinishPaging(log, after, done, cursor, sent0, last0, session.sent, session.lastCursor, seen);
        return false, seen;
      }
    }
  }

  lemma StartPaging(log: seq<Event>, after: nat, sent: seq<Event>, last: Option<nat>)
    ensures Paged(log, after, 0, after, sent, last, sent, last, {})
  {
  }

  lemma FinishPaging(log: seq<Event>, after: nat, done: nat, cursor: nat, sent0: seq<Event>, last0: Option<nat>,
                     sent: seq<Event>, last: Option<nat>, seen: set<nat>)
    requires Paged(log, after, done, cursor, sent0, last0, sent, last, seen)
    requires done == Left(log, after)
    ensures var all := After(log, after);
            sent == sent0 + Sendable(all) && last == LastOf(all, last0) && seen == Cursors(all)
  {
    var all := After(log, after);
    assert all[..|all|] == all;
  }

  lemma TakeMin(s: seq<Event>, limit: nat)
    ensures Take(s, limit) == Take(s, Min(limit, |s|))
  {
  }

  lemma PageIs(log: seq<Event>, cursor: nat, limit: nat)
    ensures var page, rows := ListOutboxEvents(log, cursor, limit), After(log, cursor);
            && (page.Stale? <==> cursor != 0 && !HasCursor(log, cursor))
            && (page.Page? ==> page.events == Take(rows, limit) && (page.hasMore <==> |rows| > limit))
            && |Take(rows, limit)| == Min(limit, |rows|)
  {
  }

  /** What a query from the current position selects. */
  lemma PageAt(log: seq<Event>, after: nat, done: nat, cursor: nat, n: nat)
    requires Sorted(log) && Position(log, after, done, cursor) && n <= |After(log, cursor)|
    ensures done + n <= |After(log, after)| && Take(After(log, cursor), n) == Batch(After(log, after), done, n)
    ensures n == |After(log, cursor)| ==> done + n == |After(log, after)|
    ensures AllKindsOK(Take(After(log, cursor), n))
  {
    AfterMembers(log, cursor);
    forall i | 0 <= i < |After(log, cursor)| ensures After(log, cursor)[i].kindOK {
      assert After(log, cursor)[i] in After(log, cursor);
    }
  }

  /** Empties the channel, without repeating what was paged. */
  method DrainChannel(sub: Subscription, session: Session, seen: set<nat>) returns (outcome: Outcome)
    modifies sub, session
    ensures sub.buffer == [] && sub.closed == old(sub.closed)
    ensures session.sent == old(session.sent) + Drained(old(sub.buffer), seen)
    ensures session.lastCursor == LastDrained(old(sub.buffer), seen, old(session.lastCursor))
    ensures outcome == if sub.closed then Recovery else Continue
  {
    ghost var all, last := Drained(sub.buffer, seen), LastDrained(sub.buffer, seen, session.lastCursor);
    ghost var sent0 := session.sent;
    while true
      invariant sub.closed == old(sub.closed)
      invariant session.sent + Drained(sub.buffer, seen) == sent0 + all
      invariant LastDrained(sub.buffer, seen, session.lastCursor) == last
      decreases |sub.buffer|
    {
      if sub.buffer == [] {
        assert session.sent + [] == session.sent;
        return if sub.closed then Recovery else Continue;
      }
      var e := sub.buffer[0];
      sub.buffer := sub.buffer[1..];
      if e.isInternal {
        continue;
      }
      if e.cursor != 0 {
        if e.cursor in seen {
          continue;
        }
        session.lastCursor := Some(e.cursor);
      }
      if !e.kindOK || !e.matches || !e.enriched {
        continue;
      }
      assert session.sent + ([e] + Drained(sub.buffer, seen)) == session.sent + [e] + Drained(sub.buffer, seen);
      session.sent := session.sent + [e];
    }
  }

  // ---- Once in a call -----------------------------------------------------------------------------

  /** No durable event was sent twice. */
  ghost predicate SentOnce(sent: seq<Event>) {
    forall i, j | 0 <= i < j < |sent| && sent[i].cursor > 0 :: sent[i].cursor != sent[j].cursor
  }

  /** No two buffered events that pass the filters and were not paged share a cursor. */
  ghost predicate OfferedOnce(buffer: seq<Event>, seen: set<nat>) {
    forall i, j | 0 <= i < j < |buffer| && buffer[i].cursor > 0 && Unpaged(buffer[i], seen) && Unpaged(buffer[j], seen) ::
      buffer[i].cursor != buffer[j].cursor
  }

  lemma {:induction false} DrainedMembers(buffer: seq<Event>, seen: set<nat>, e: Event)
    ensures e in Drained(buffer, seen) <==> e in buffer && Unpaged(e, seen)
    ensures Unpaged(e, seen) <==>
            !e.isInternal && (e.cursor == 0 || e.cursor !in seen) && e.kindOK && e.matches && e.enriched
  {
    if buffer != [] {
      DrainedMembers(buffer[1..], seen, e);
      assert buffer == [buffer[0]] + buffer[1..];
    }
  }

  /** The event has a cursor that was not paged, and is public: it moves the last cursor, even if a filter rejects it. */
  ghost predicate Moves(e: Event, seen: set<nat>) {
    e.cursor != 0 && e.cursor !in seen && !e.isInternal
  }

  /** After draining, the last cursor is that of the last such event. */
  lemma {:induction false} LastDrainedMeaning(buffer: seq<Event>, seen: set<nat>, last: Option<nat>)
    ensures (forall e | e in buffer :: !Moves(e, seen)) ==> LastDrained(buffer, seen, last) == last
    ensures forall i | 0 <= i < |buffer| && Moves(buffer[i], seen) && (forall j | i < j < |buffer| :: !Moves(buffer[j], seen)) ::
              LastDrained(buffer, seen, last) == Some(buffer[i].cursor)
  {
    if buffer != [] {
      var e, rest := buffer[0], buffer[1..];
      var moved := if Moves(e, seen) then Some(e.cursor) else last;
      LastDrainedMeaning(rest, seen, moved);
      assert LastDrained(buffer, seen, last) == LastDrained(rest, seen, moved);
      assert buffer == [e] + rest;
      forall i | 0 <= i < |buffer| && Moves(buffer[i], seen) && (forall j | i < j < |buffer| :: !Moves(buffer[j], seen))
        ensures LastDrained(buffer, seen, last) == Some(buffer[i].cursor)
      {
        if i == 0 {
          forall d | d in rest ensures !Moves(d, seen) {
            var j :| 0 <= j < |rest| && rest[j] == d;
            assert buffer[j + 1] == d;
          }
        } else {
          assert rest[i - 1] == buffer[i];
          forall j | i - 1 < j < |rest| ensures !Moves(rest[j], seen) {
            assert rest[j] == buffer[j + 1];
          }
        }
      }
    }
  }

  lemma OfferedFirst(buffer: seq<Event>, seen: set<nat>)
    requires buffer != []
    ensures OfferedOnce(buffer, seen) <==>
            && OfferedOnce(buffer[1..], seen)
            && (buffer[0].cursor > 0 && Unpaged(buffer[0], seen) ==>
                  forall e | e in buffer[1..] && Unpaged(e, seen) :: e.cursor != buffer[0].cursor)
  {
    var rest := buffer[1..];
    if OfferedOnce(buffer, seen) {
      forall i, j | 0 <= i < j < |rest| && rest[i].cursor > 0 && Unpaged(rest[i], seen) && Unpaged(rest[j], seen)
        ensures rest[i].cursor != rest[j].cursor
      {
        assert buffer[i + 1] == rest[i] && buffer[j + 1] == rest[j];
      }
    }
    if OfferedOnce(rest, seen) {
      forall j | 0 < j < |buffer| ensures buffer[j] == rest[j - 1] && buffer[j] in rest {}
    }
  }

  lemma SentFirst(e: Event, rest: seq<Event>)
    ensures SentOnce([e] + rest) <==> SentOnce(rest) && (e.cursor > 0 ==> forall d | d in rest :: d.cursor != e.cursor)
  {
    var all := [e] + rest;
    if SentOnce(all) {
      forall i, j | 0 <= i < j < |rest| && rest[i].cursor > 0 ensures rest[i].cursor != rest[j].cursor {
        assert all[i + 1] == rest[i] && all[j + 1] == rest[j];
      }
      forall d | d in rest ensures e.cursor > 0 ==> d.cursor != e.cursor {
        var j :| 0 <= j < |rest| && rest[j] == d;
        assert all[0] == e && all[j + 1] == d;
      }
    }
    if SentOnce(rest) {
      forall j | 0 < j < |all| ensures all[j] in rest {
        assert all[j] == rest[j - 1];
      }
    }
  }

  lemma {:induction false} DrainedOnce(buffer: seq<Event>, seen: set<nat>)
    ensures SentOnce(Drained(buffer, seen)) <==> OfferedOnce(buffer, seen)
  {
    if buffer != [] {
      var e, rest := buffer[0], buffer[1..];
      DrainedOnce(rest, seen);
      OfferedFirst(buffer, seen);
      SentFirst(e, Drained(rest, seen));
      forall d ensures d in Drained(rest, seen) <==> d in rest && Unpaged(d, seen) {
        DrainedMembers(rest, seen, d);
      }
      DrainedFirst(buffer, seen);
      hide SentOnce, OfferedOnce, Drained, Unpaged;
    }
  }

  lemma DrainedFirst(buffer: seq<Event>, seen: set<nat>)
    requires buffer != []
    ensures var rest := Drained(buffer[1..], seen);
            Drained(buffer, seen) == if Unpaged(buffer[0], seen) then [buffer[0]] + rest else rest
  {
    assert [] + Drained(buffer[1..], seen) == Drained(buffer[1..], seen);
  }

  lemma SentApart(a: seq<Event>, b: seq<Event>)
    requires SentOnce(a) && forall d, e | d in a && e in b && d.cursor > 0 :: d.cursor != e.cursor
    ensures SentOnce(a + b) <==> SentOnce(b)
  {
    var all := a + b;
    if SentOnce(all) {
      forall i, j | 0 <= i < j < |b| && b[i].cursor > 0 ensures b[i].cursor != b[j].cursor {
        assert all[|a| + i] == b[i] && all[|a| + j] == b[j];
      }
    }
    if SentOnce(b) {
      forall i, j | 0 <= i < j < |all| && all[i].cursor > 0 ensures all[i].cursor != all[j].cursor {
        assert i < |a| ==> all[i] == a[i] && a[i] in a;
        assert j >= |a| ==> all[j] == b[j - |a|] && b[j - |a|] in b;
        assert i >= |a| ==> all[i] == b[i - |a|];
        assert j < |a| ==> all[j] == a[j];
      }
    }
  }

  /** One call sends no durable event twice exactly if no two buffered events that pass the filters and
      were not paged share a cursor. */
  lemma CallSendsOnce(log: seq<Event>, after: nat, buffer: seq<Event>)
    requires Sorted(log)
    ensures var paged := After(log, after);
            SentOnce(Sendable(paged) + Drained(buffer, Cursors(paged))) <==> OfferedOnce(buffer, Cursors(paged))
  {
    var paged := After(log, after);
    var seen, rows, drained := Cursors(paged), Sendable(paged), Drained(buffer, Cursors(paged));
    AfterMembers(log, after);
    SendableSorted(paged);
    SendableMembers(paged);
    DrainedOnce(buffer, seen);
    forall d, e | d in rows && e in drained && d.cursor > 0 ensures d.cursor != e.cursor {
      DrainedMembers(buffer, seen, e);
      assert d.cursor in seen;
    }
    assert SentOnce(rows);
    hide SentOnce, OfferedOnce, Sendable, After, Drained;
    SentApart(rows, drained);
  }

  /** The replay call.  `Finished` means that the cursor is stale and the stream ends. */
  method ReplayEvents(log: seq<Event>, sub: Subscription, session: Session, after: nat, batchSize: int)
    returns (outcome: Outcome)
    requires Sorted(log)
    modifies sub, session
    ensures outcome == Finished <==> after != 0 && !HasCursor(log, after)
    ensures outcome == Finished ==> session.sent == old(session.sent) && session.lastCursor == old(session.lastCursor)
    ensures outcome != Finished ==>
      var paged := After(log, after);
      && sub.buffer == [] && (outcome == Recovery <==> sub.closed)
      && session.sent == old(session.sent) + Sendable(paged) + Drained(old(sub.buffer), Cursors(paged))
      && session.lastCursor ==
         LastDrained(old(sub.buffer), Cursors(paged), LastOf(paged, old(session.lastCursor)))
      && (SentOnce(session.sent[|old(session.sent)|..]) <==> OfferedOnce(old(sub.buffer), Cursors(paged)))
  {
    CallSendsOnce(log, after, sub.buffer);
    ghost var sent0, buffer := session.sent, sub.buffer;
    hide Sendable, After, Drained, LastDrained, SentOnce, OfferedOnce, Sorted, HasCursor;
    var stale, seen := PageOutbox(log, session, after, batchSize);
    if stale {
      return Finished;
    }
    outcome := DrainChannel(sub, session, seen);
    ghost var paged := After(log, after);
    CallTail(sent0, Sendable(paged), Drained(buffer, Cursors(paged)));
  }

  lemma CallTail(a: seq<Event>, b: seq<Event>, c: seq<Event>)
    ensures (a + b + c)[|a|..] == b + c
  {
  }

  // ---- The call as steps of the stream ------------------------------------------------------------

  /** Without steps of the environment in between, the paging steps of the stream send what one call
      of `PageOutbox` sends, for any batch size. */
  lemma {:induction false} PagingRun(s: State, limit: nat) returns (actions: seq<Action>)
    requires Sorted(s.log) && s.phase == Paging && limit > 0
    requires s.cursor == 0 || HasCursor(s.log, s.cursor)
    ensures var paged := After(s.log, s.cursor);
            var t := Run(s, actions);
            && t.phase == Draining && t.channel == s.channel && t.log == s.log
            && t.sent == s.sent + Sendable(paged)
            && t.seen == s.seen + Cursors(paged)
            && t.last == LastOf(paged, s.last)
    decreases |After(s.log, s.cursor)|
  {
    var paged := After(s.log, s.cursor);
    var t := Step(s, NextPage(limit));
    PageRest(s, limit);
    if |paged| <= limit {
      actions := [NextPage(limit)];
      assert Run(s, actions) == Run(t, []);
    } else {
      hide Step, After, Sendable, Sorted, Cursors, LastOf;
      var more := PagingRun(t, limit);
      actions := [NextPage(limit)] + more;
      RunFirst(s, NextPage(limit), more);
    }
  }

  /** One page, and what is left after it. */
  lemma PageRest(s: State, limit: nat)
    requires Sorted(s.log) && s.phase == Paging && limit > 0
    requires s.cursor == 0 || HasCursor(s.log, s.cursor)
    ensures var paged := After(s.log, s.cursor);
            var t := Step(s, NextPage(limit));
            && t.channel == s.channel && t.log == s.log
            && (|paged| <= limit ==>
                  && t.phase == Draining && t.sent == s.sent + Sendable(paged)
                  && t.seen == s.seen + Cursors(paged) && t.last == LastOf(paged, s.last))
            && (|paged| > limit ==>
                  var rest := After(s.log, t.cursor);
                  && t.phase == Paging && HasCursor(s.log, t.cursor) && |rest| < |paged|
                  && t.sent + Sendable(rest) == s.sent + Sendable(paged)
                  && t.seen + Cursors(rest) == s.seen + Cursors(paged)
                  && LastOf(rest, t.last) == LastOf(paged, s.last))
  {
    hide After, Sendable, Cursors, CursorList, Sorted, HasCursor, ListOutboxEvents, Step;
    var paged := After(s.log, s.cursor);
    PageStepIs(s, limit);
    if |paged| > limit {
      SplitPage(s.log, s.cursor, limit, s.sent);
      assert LastOf(paged[limit..], Step(s, NextPage(limit)).last) == LastOf(paged, s.last);
    }
  }

  lemma PageStepIs(s: State, limit: nat)
    requires s.phase == Paging && limit > 0 && (s.cursor == 0 || HasCursor(s.log, s.cursor))
    ensures var paged := After(s.log, s.cursor);
            Step(s, NextPage(limit)) ==
            ConsumePage(s, if |paged| > limit then paged[..limit] else paged, |paged| > limit)
  {
    hide After, Sendable, Cursors, CursorList, HasCursor, ConsumePage;
  }

  lemma SelectedHasCursor(log: seq<Event>, cursor: nat, i: nat)
    requires Sorted(log) && i < |After(log, cursor)|
    ensures HasCursor(log, After(log, cursor)[i].cursor)
  {
    AfterMembers(log, cursor);
    var e := After(log, cursor)[i];
    assert e in After(log, cursor);
    var k :| 0 <= k < |log| && log[k] == e;
  }

  lemma TakeDrop(s: seq<Event>, n: nat)
    requires n <= |s|
    ensures s[..n] + s[n..] == s
  {
  }

  lemma SplitPage(log: seq<Event>, cursor: nat, limit: nat, sent: seq<Event>)
    requires Sorted(log) && 0 < limit < |After(log, cursor)|
    ensures var paged := After(log, cursor);
            var page, next := paged[..limit], paged[limit - 1].cursor;
            var rest := After(log, next);
            && HasCursor(log, next) && rest == paged[limit..]
            && sent + Sendable(page) + Sendable(rest) == sent + Sendable(paged)
            && Cursors(page) + Cursors(rest) == Cursors(paged)
  {
    hide *;
    var paged := After(log, cursor);
    var page, rest := paged[..limit], paged[limit..];
    AfterContinues(log, cursor, limit - 1);
    SelectedHasCursor(log, cursor, limit - 1);
    TakeDrop(paged, limit);
    SendableAppend(page, rest);
    CursorsAppend(page, rest);
    Regroup(sent, Sendable(page), Sendable(rest));
  }

  /** Likewise for draining. */
  lemma {:induction false} DrainingRun(s: State) returns (actions: seq<Action>)
    requires s.phase == Draining
    ensures var t := Run(s, actions);
            && t.phase == Draining && t.channel == s.channel.(buffer := [])
            && t.sent == s.sent + Drained(s.channel.buffer, s.seen)
            && t.last == LastDrained(s.channel.buffer, s.seen, s.last)
    decreases |s.channel.buffer|
  {
    if s.channel.buffer == [] {
      actions := [];
      assert s.sent + [] == s.sent;
    } else {
      var first := DrainOne(s);
      var t := Step(s, DrainEvent);
      hide Step, Drained, LastDrained;
      var more := DrainingRun(t);
      actions := [DrainEvent] + more;
      RunFirst(s, DrainEvent, more);
      assert s.sent + first + Drained(t.channel.buffer, s.seen) == s.sent + (first + Drained(t.channel.buffer, s.seen));
    }
  }

  lemma DrainOne(s: State) returns (first: seq<Event>)
    requires s.phase == Draining && s.channel.buffer != []
    ensures var t := Step(s, DrainEvent);
            && t.phase == Draining && t.seen == s.seen
            && t.channel == Rest(s.channel) && t.channel.(buffer := []) == s.channel.(buffer := [])
            && t.sent == s.sent + first
            && Drained(s.channel.buffer, s.seen) == first + Drained(t.channel.buffer, s.seen)
            && LastDrained(s.channel.buffer, s.seen, s.last) == LastDrained(t.channel.buffer, s.seen, t.last)
  {
    var e := s.channel.buffer[0];
    first := if Fresh(e, s.seen) && e.kindOK && e.matches && e.enriched then [e] else [];
  }

  // ---- Recovery -------------------------------------------------------------------------------------------

  /** `paging` takes the stream `u` to the end of the outbox and sends all that it selects. */
  ghost predicate Pages(u: State, paging: seq<Action>) {
    var t := Run(u, paging);
    t.phase == Draining && t.log == u.log && t.sent == u.sent + Sendable(After(u.log, u.cursor))
  }

  /** Paging after a recovery sends again exactly those durable events that were sent before and lie
      behind the last cursor. */
  lemma RecoveryRepeats(first: State, mode: Mode, actions: seq<Action>, limit: nat, e: Event)
    requires Initial(first, mode) && RunInOrder(first, actions) && limit > 0 && e.cursor > 0
    requires Enabled(Run(first, actions), Recover(true)) && Run(first, actions).last.Some?
    ensures var s := Run(first, actions);
            var u := Step(Step(s, Recover(true)), Subscribe);
            && u.sent == s.sent && u.log == s.log
            && (exists paging :: Pages(u, paging))
            && (e in s.sent ==> (e in Sendable(After(u.log, u.cursor)) <==> e.cursor > s.last.value))
  {
    var s := Run(first, actions);
    var u := Step(Step(s, Recover(true)), Subscribe);
    InitialValid(first, mode);
    RunSendsWanted(first, actions);
    RecoveryStarts(s);
    hide Step, Run, Valid, RunInOrder, Initial;
    Repages(u, limit);
    AfterMembers(u.log, u.cursor);
    SendableMembers(After(u.log, u.cursor));
    hide After, Sendable;
  }

  lemma RecoveryStarts(s: State)
    requires Valid(s) && Enabled(s, Recover(true)) && s.last.Some?
    ensures var u := Step(Step(s, Recover(true)), Subscribe);
            && u.phase == Paging && u.cursor == s.last.value && u.log == s.log && u.sent == s.sent
            && ValidLog(u.log) && (u.cursor == 0 || HasCursor(u.log, u.cursor))
  {
    hide ValidPhase, ValidLog, HasCursor;
    assert s.start.Some? && !s.snapshot;
    CursorKnown(s.log, s.last.value);
  }

  lemma Repages(u: State, limit: nat)
    requires ValidLog(u.log) && u.phase == Paging && limit > 0 && (u.cursor == 0 || HasCursor(u.log, u.cursor))
    ensures exists paging :: Pages(u, paging)
  {
    var paging := PagingRun(u, limit);
    hide Run, After, Sendable;
    assert Pages(u, paging);
  }

  lemma CursorKnown(log: seq<Event>, c: nat)
    requires InLog(log, c)
    ensures c == 0 || HasCursor(log, c)
  {
    if c != 0 {
      var e :| e in log && e.cursor == c;
      var i :| 0 <= i < |log| && log[i] == e;
    }
  }
}
