/** Durable event replay followed by live delivery (internal/grpc/server.go, SubscribeEvents).

    The outbox is a log of events with increasing cursors.  A relay publishes committed events on the
    bus, and may publish them again after a restart.  The bus offers them to the subscriber's bounded
    channel and closes the channel when it is full.  The stream pages the outbox from a cursor, drains
    the channel without repeating what it paged, goes live, and starts over from the last cursor when
    the channel was closed. */
module EventStream {
  import opened Wrappers

  /** Cursor 0 is no cursor.  `routed`: the bus addresses the event to this subscriber, who may also
      replay it.  The other flags are the outcomes of the kind filter, of the conversation and entry
      filters, and of loading the details. */
  datatype Event = Event(cursor: nat, isInternal: bool, isStream: bool,
                         routed: bool, kindOK: bool, matches: bool, enriched: bool)

  /** The subscriber asked for this event. */
  predicate Wanted(e: Event) {
    e.routed && e.kindOK && e.matches && e.enriched
  }

  // ---- The outbox --------------------------------------------------------------------------------

  ghost predicate Sorted(log: seq<Event>) {
    forall i, j | 0 <= i < j < |log| :: log[i].cursor < log[j].cursor
  }

  predicate Durable(e: Event) {
    e.cursor > 0 && !e.isInternal && !e.isStream
  }

  predicate HasCursor(log: seq<Event>, cursor: nat) {
    exists i :: 0 <= i < |log| && log[i].cursor == cursor
  }

  /** The events after a cursor that pass the kind filter: what the outbox query selects. */
  function After(log: seq<Event>, cursor: nat): (r: seq<Event>) {
    if log == [] then []
    else (if log[0].cursor > cursor && log[0].kindOK then [log[0]] else []) + After(log[1..], cursor)
  }

  datatype Page = Stale | Page(events: seq<Event>, hasMore: bool)

  /** One outbox query; 0 is the cursor "start", which needs no marker. */
  function ListOutboxEvents(log: seq<Event>, after: nat, limit: nat): Page {
    if after != 0 && !HasCursor(log, after) then Stale
    else
      var rows := After(log, after);
      if |rows| > limit then Page(rows[..limit], true) else Page(rows, false)
  }

  /** The events of a page that are sent. */
  function Sendable(events: seq<Event>): seq<Event> {
    if events == [] then []
    else Sendable(events[..|events| - 1]) + if Wanted(events[|events| - 1]) then [events[|events| - 1]] else []
  }

  function Cursors(events: seq<Event>): set<nat> {
    set e | e in events :: e.cursor
  }

  lemma {:induction false} AfterMembers(log: seq<Event>, cursor: nat)
    requires Sorted(log)
    ensures Sorted(After(log, cursor))
    ensures forall e :: e in After(log, cursor) <==> e in log && e.cursor > cursor && e.kindOK
  {
    if log != [] {
      var first, rest := log[0], log[1..];
      AfterMembers(rest, cursor);
      assert log == [first] + rest;
      forall e | e in rest ensures first.cursor < e.cursor {
        var i :| 0 <= i < |rest| && rest[i] == e;
        assert log[i + 1] == e;
      }
      FirstSorted(first, After(rest, cursor));
    }
  }

  lemma FirstSorted(first: Event, rest: seq<Event>)
    requires Sorted(rest) && forall e | e in rest :: first.cursor < e.cursor
    ensures Sorted([first] + rest)
  {
  }

  lemma {:induction false} SendableMembers(events: seq<Event>)
    ensures forall e :: e in Sendable(events) <==> e in events && Wanted(e)
  {
    if events != [] {
      SendableMembers(events[..|events| - 1]);
      assert events == events[..|events| - 1] + [events[|events| - 1]];
    }
  }

  lemma {:induction false} SendableSorted(events: seq<Event>)
    requires Sorted(events)
    ensures Sorted(Sendable(events))
  {
    if events != [] {
      var front, last := events[..|events| - 1], events[|events| - 1];
      SendableSorted(front);
      SendableMembers(front);
      forall e | e in Sendable(front) ensures e.cursor < last.cursor {
        var i :| 0 <= i < |front| && front[i] == e;
      }
    }
  }

  /** Continuing after any selected event yields the rest of the selection. */
  lemma {:induction false} AfterContinues(log: seq<Event>, cursor: nat, i: nat)
    requires Sorted(log) && i < |After(log, cursor)|
    ensures After(log, After(log, cursor)[i].cursor) == After(log, cursor)[i + 1..]
  {
    AfterMembers(log, cursor);
    var rows := After(log, cursor);
    AfterMembers(log, rows[i].cursor);
    SortedSame(After(log, rows[i].cursor), rows[i + 1..]);
  }

  lemma {:induction false} SortedSame(a: seq<Event>, b: seq<Event>)
    requires Sorted(a) && Sorted(b) && forall e :: e in a <==> e in b
    ensures a == b
  {
    assert |b| > 0 ==> b[0] in a;
    if a != [] {
      assert a[0] in b;
      assert a == [a[0]] + a[1..] && b == [b[0]] + b[1..];
      assert a[0] == b[0];
      forall e ensures e in a[1..] <==> e in b[1..] {
        assert e in a[1..] <==> e in a && e != a[0];
        assert e in b[1..] <==> e in b && e != b[0];
      }
      SortedSame(a[1..], b[1..]);
    }
  }

  /** A page in terms of the rows: stale if and only if there is no row with the given cursor; else it holds, in order,
      the first `limit` of the later rows that pass the kind filter, and says whether there are more. */
  lemma PageMeaning(log: seq<Event>, after: nat, limit: nat)
    requires Sorted(log)
    ensures var page := ListOutboxEvents(log, after, limit);
            && (page.Stale? <==> after > 0 && forall e | e in log :: e.cursor != after)
            && (page.Page? ==>
                  && Sorted(page.events) && |page.events| <= limit
                  && (forall e | e in page.events :: e in log && e.cursor > after && e.kindOK)
                  && (!page.hasMore ==> forall e | e in log && e.cursor > after && e.kindOK :: e in page.events)
                  && (page.hasMore ==> |page.events| == limit && exists e :: Further(log, page.events, after, e))
                  && (forall e, d | Further(log, page.events, after, e) && d in page.events :: d.cursor < e.cursor))
  {
    AfterMembers(log, after);
    HasCursorIn(log, after);
    var rows, page := After(log, after), ListOutboxEvents(log, after, limit);
    hide After, HasCursor, Sorted;
    if page.Page? && |rows| > limit {
      CutRows(rows, limit);
      assert Further(log, page.events, after, rows[limit]);
    }
  }

  lemma CutRows(rows: seq<Event>, limit: nat)
    requires Sorted(rows) && limit < |rows|
    ensures Sorted(rows[..limit]) && rows[limit] in rows && rows[limit] !in rows[..limit]
    ensures forall e | e in rows[..limit] :: e in rows
    ensures forall e, d | e in rows && e !in rows[..limit] && d in rows[..limit] :: d.cursor < e.cursor
  {
    forall e, d | e in rows && e !in rows[..limit] && d in rows[..limit] ensures d.cursor < e.cursor {
      var i :| 0 <= i < |rows| && rows[i] == e;
      var j :| 0 <= j < limit && rows[j] == d;
      assert i < limit ==> e == rows[..limit][i];
    }
  }

  lemma HasCursorIn(log: seq<Event>, cursor: nat)
    ensures HasCursor(log, cursor) <==> exists e :: e in log && e.cursor == cursor
  {
    if HasCursor(log, cursor) {
      var i :| 0 <= i < |log| && log[i].cursor == cursor;
      assert log[i] in log;
    }
  }

  /** A row that the query selects and the page does not hold. */
  ghost predicate Further(log: seq<Event>, events: seq<Event>, after: nat, e: Event) {
    e in log && e.cursor > after && e.kindOK && e !in events
  }
}
