/** Eviction of outbox rows while streams read the outbox (internal/plugin/store/postgres/outbox.go:77-159).

    Rows are deleted by age.  A query is stale if the row of its cursor is gone, and silently skips other
    rows that are gone. */
module EventEviction {
  import opened Wrappers
  import opened EventStream
  import opened EventDelivery

  // ---- What queries see ------------------------------------------------------------------------------

  /** The committed events whose rows are still there. */
  function Stored(log: seq<Event>, gone: set<nat>): seq<Event> {
    if log == [] then []
    else (if log[0].cursor in gone then [] else [log[0]]) + Stored(log[1..], gone)
  }

  lemma {:induction false} StoredMembers(log: seq<Event>, gone: set<nat>)
    requires Sorted(log)
    ensures Sorted(Stored(log, gone))
    ensures forall e :: e in Stored(log, gone) <==> e in log && e.cursor !in gone
  {
    if log != [] {
      var first, rest := log[0], log[1..];
      StoredMembers(rest, gone);
      assert log == [first] + rest;
      forall e | e in rest ensures first.cursor < e.cursor {
        var i :| 0 <= i < |rest| && rest[i] == e;
        assert log[i + 1] == e;
      }
      FirstSorted(first, Stored(rest, gone));
    }
  }

  /** Of the events that the query selects, those that are gone come before all that are still there. */
  ghost predicate Oldest(log: seq<Event>, gone: set<nat>) {
    forall d, e | d in log && e in log && d.cursor !in gone && e.cursor in gone && e.kindOK :: e.cursor < d.cursor
  }

  /** The query after `cursor` is reported as stale, or answered as if nothing had been evicted. */
  ghost predicate Honest(log: seq<Event>, gone: set<nat>, cursor: nat, limit: nat) {
    ListOutboxEvents(Stored(log, gone), cursor, limit) in {Stale, ListOutboxEvents(log, cursor, limit)}
  }

  lemma StoredAfter(log: seq<Event>, gone: set<nat>, cursor: nat)
    requires Sorted(log) && Oldest(log, gone) && HasCursor(Stored(log, gone), cursor)
    ensures HasCursor(log, cursor) && After(Stored(log, gone), cursor) == After(log, cursor)
  {
    StoredMembers(log, gone);
    HasCursorIn(Stored(log, gone), cursor);
    HasCursorIn(log, cursor);
    AfterMembers(log, cursor);
    AfterMembers(Stored(log, gone), cursor);
    SortedSame(After(Stored(log, gone), cursor), After(log, cursor));
  }

  /** What is evicted between two events that are kept vanishes behind the first. */
  lemma BetweenVanishes(log: seq<Event>, gone: set<nat>, d: Event, e: Event)
    requires ValidLog(log) && d in log && e in log && d.cursor !in gone && e.cursor in gone && e.kindOK && d.cursor < e.cursor
    ensures exists limit :: !Honest(log, gone, d.cursor, limit)
  {
    var kept, all := After(Stored(log, gone), d.cursor), After(log, d.cursor);
    StoredMembers(log, gone);
    HasCursorIn(Stored(log, gone), d.cursor);
    HasCursorIn(log, d.cursor);
    AfterMembers(log, d.cursor);
    AfterMembers(Stored(log, gone), d.cursor);
    assert e in all && e !in kept;
    var limit := |all| + |kept|;
    assert ListOutboxEvents(log, d.cursor, limit) == Page(all, false);
    assert ListOutboxEvents(Stored(log, gone), d.cursor, limit) == Page(kept, false);
    assert !Honest(log, gone, d.cursor, limit);
  }

  /** Evictions stay invisible to every query with a cursor, except as stale ones, exactly if they take the
      oldest events. */
  lemma PageExact(log: seq<Event>, gone: set<nat>)
    requires ValidLog(log)
    ensures (forall cursor, limit | cursor > 0 :: Honest(log, gone, cursor, limit)) <==> Oldest(log, gone)
  {
    if Oldest(log, gone) {
      forall cursor: nat, limit: nat | cursor > 0 ensures Honest(log, gone, cursor, limit) {
        if HasCursor(Stored(log, gone), cursor) {
          StoredAfter(log, gone, cursor);
        }
      }
    } else {
      var d, e :| d in log && e in log && d.cursor !in gone && e.cursor in gone && e.kindOK && !(e.cursor < d.cursor);
      BetweenVanishes(log, gone, d, e);
      var limit: nat :| !Honest(log, gone, d.cursor, limit);
    }
  }

  /** The last event that is gone, of those that the query selects. */
  function NewestGone(log: seq<Event>, gone: set<nat>): nat {
    if log == [] then 0
    else
      var last := log[|log| - 1];
      if last.cursor in gone && last.kindOK then last.cursor else NewestGone(log[..|log| - 1], gone)
  }

  lemma {:induction false} NewestGoneIs(log: seq<Event>, gone: set<nat>)
    requires Sorted(log)
    ensures forall e | e in log && e.cursor in gone && e.kindOK :: e.cursor <= NewestGone(log, gone)
    ensures NewestGone(log, gone) == 0 ||
            exists e :: e in log && e.cursor == NewestGone(log, gone) && e.cursor in gone && e.kindOK
  {
    if log != [] {
      var front, last := log[..|log| - 1], log[|log| - 1];
      assert log == front + [last];
      NewestGoneIs(front, gone);
      forall e | e in front ensures e.cursor < last.cursor {
        var i :| 0 <= i < |front| && front[i] == e;
      }
    }
  }

  /** A query from the start is answered from the first event that is still there. */
  lemma StartPage(log: seq<Event>, gone: set<nat>, limit: nat)
    requires ValidLog(log) && Oldest(log, gone)
    ensures ListOutboxEvents(Stored(log, gone), 0, limit) == ListOutboxEvents(log, NewestGone(log, gone), limit)
  {
    var m := NewestGone(log, gone);
    NewestGoneIs(log, gone);
    StoredMembers(log, gone);
    HasCursorIn(log, m);
    AfterMembers(log, m);
    AfterMembers(Stored(log, gone), 0);
    SortedSame(After(Stored(log, gone), 0), After(log, m));
  }

  // ---- Streams over an evicted outbox -------------------------------------------------------------------

  /** A stream and its environment, and the cursors whose rows are gone. */
  datatype World = World(stream: State, gone: set<nat>)

  datatype Move = Do(a: Action) | Evict(rows: set<nat>)

  /** A page of what is still there.  A client that asks for the start is owed what is still there. */
  function PageStored(w: World, limit: nat): State {
    var s := w.stream;
    match ListOutboxEvents(Stored(s.log, w.gone), s.cursor, limit)
    case Stale => s.(phase := Closed)
    case Page(events, hasMore) =>
      ConsumePage(if s.cursor == 0 && s.start == Some(0) then s.(start := Some(NewestGone(s.log, w.gone))) else s, events, hasMore)
  }

  /** The snapshot starts at the newest row. */
  function SubscribeStored(w: World): State {
    var s, newest := w.stream, HighWater(Stored(w.stream.log, w.gone));
    SubscribeStep(if s.snapshot then s.(snapshot := false, start := Some(newest), resume := Some(newest)) else s)
  }

  ghost function Evicted(log: seq<Event>, gone: set<nat>, rows: set<nat>): set<nat> {
    gone + set e | e in log && e.cursor in rows :: e.cursor
  }

  ghost function Next(w: World, m: Move): World {
    match m
    case Evict(rows) => w.(gone := Evicted(w.stream.log, w.gone, rows))
    case Do(a) =>
      if !Enabled(w.stream, a) then w
      else if a.Subscribe? then w.(stream := SubscribeStored(w))
      else if a.NextPage? then w.(stream := PageStored(w, a.limit))
      else if a.Mark? then w.(stream := w.stream.(marker := Some(HighWater(Stored(w.stream.log, w.gone)))))
      else w.(stream := Step(w.stream, a))
  }

  ghost function RunMoves(w: World, moves: seq<Move>): World
    decreases |moves|
  {
    if moves == [] then w else RunMoves(Next(w, moves[0]), moves[1..])
  }

  /** The relay publishes in order, and the oldest rows are evicted. */
  ghost predicate Orderly(w: World, m: Move) {
    match m
    case Do(a) => InOrder(w.stream, a)
    case Evict(rows) => Oldest(w.stream.log, Evicted(w.stream.log, w.gone, rows))
  }

  ghost predicate RunOrderly(w: World, moves: seq<Move>)
    decreases |moves|
  {
    moves == [] || (Orderly(w, moves[0]) && RunOrderly(Next(w, moves[0]), moves[1..]))
  }

  // ---- What every run keeps --------------------------------------------------------------------------------

  ghost predicate FromLog(log: seq<Event>, gone: set<nat>) {
    forall c | c in gone :: c > 0 && InLog(log, c)
  }

  /** Only a client that asked for the start pages without a cursor. */
  ghost predicate Rooted(s: State) {
    && s.last != Some(0)
    && (s.phase == Subscribing && s.resume == Some(0) ==> s.start == Some(0))
    && (s.phase == Paging && s.cursor == 0 ==> s.start == Some(0))
  }

  ghost predicate ValidWorld(w: World) {
    Valid(w.stream) && Rooted(w.stream) && FromLog(w.stream.log, w.gone) && Oldest(w.stream.log, w.gone)
  }

  lemma SettledLater(log: seq<Event>, sent: seq<Event>, start: nat, m: nat, to: nat)
    requires Settled(log, sent, Some(start), to) && start <= m
    ensures Settled(log, sent, Some(m), to) && Settled(log, sent, Some(m), m)
  {
  }

  /** Owing only what comes after a later event keeps the invariant. */
  lemma StartLater(s: State, m: nat)
    requires Valid(s) && s.phase == Paging && s.start == Some(0)
    ensures Valid(s.(start := Some(m), cursor := m))
  {
    SettledLater(s.log, s.sent, 0, m, s.cursor);
    if s.last.Some? {
      SettledLater(s.log, s.sent, 0, m, s.last.value);
    }
    hide Settled, SeenSent, ValidLog, ValidChannel, InLog;
  }

  lemma DrainingCursor(s: State, cursor: nat)
    requires Valid(s) && s.phase != Paging
    ensures Valid(s.(cursor := cursor))
  {
    hide Settled, SeenSent, ValidLog, ValidChannel, InLog;
  }

  lemma StartPageKeeps(w: World, limit: nat)
    requires ValidWorld(w) && w.stream.phase == Paging && w.stream.cursor == 0 && limit > 0
    ensures Valid(PageStored(w, limit))
  {
    var s, m := w.stream, NewestGone(w.stream.log, w.gone);
    StartPage(s.log, w.gone, limit);
    StartLater(s, m);
    var from := s.(start := Some(m), cursor := m);
    PageKeeps(from, limit);
    var page := ListOutboxEvents(s.log, m, limit);
    assert page.Page? && page.hasMore ==> page.events != [];
    hide Valid, Sendable, Cursors, CursorList, ListOutboxEvents, After, Stored, NewestGone;
    if page.Page? && page.events == [] {
      DrainingCursor(PageStep(from, limit), 0);
      assert PageStored(w, limit) == PageStep(from, limit).(cursor := 0);
    } else {
      assert PageStored(w, limit) == PageStep(from, limit);
    }
  }

  lemma PageStoredKeeps(w: World, limit: nat)
    requires ValidWorld(w) && w.stream.phase == Paging && limit > 0
    ensures Valid(PageStored(w, limit))
  {
    var s := w.stream;
    if s.cursor == 0 {
      StartPageKeeps(w, limit);
    } else {
      PageExact(s.log, w.gone);
      assert Honest(s.log, w.gone, s.cursor, limit);
      if ListOutboxEvents(Stored(s.log, w.gone), s.cursor, limit) == Stale {
        ClosedValid(s);
      } else {
        PageKeeps(s, limit);
      }
    }
  }

  lemma ClosedValid(s: State)
    requires Valid(s)
    ensures Valid(s.(phase := Closed))
  {
    hide Settled, SeenSent, ValidLog, ValidChannel, InLog;
  }

  lemma PageStoredRooted(w: World, limit: nat)
    requires ValidWorld(w) && w.stream.phase == Paging && limit > 0
    ensures Rooted(PageStored(w, limit)) && PageStored(w, limit).log == w.stream.log
  {
    var s := w.stream;
    var page := ListOutboxEvents(Stored(s.log, w.gone), s.cursor, limit);
    if page.Page? {
      StoredMembers(s.log, w.gone);
      PageFromLog(Stored(s.log, w.gone), s.cursor, limit, page.events, page.hasMore);
      assert page.events != [] ==> page.events[|page.events| - 1] in page.events;
      assert page.hasMore ==> page.events != [];
    }
    hide Valid, Sendable, Cursors, CursorList, ListOutboxEvents, Stored, NewestGone;
  }

  lemma SubscribeStoredKeeps(w: World)
    requires ValidWorld(w) && w.stream.phase == Subscribing
    ensures Valid(SubscribeStored(w)) && Rooted(SubscribeStored(w)) && SubscribeStored(w).log == w.stream.log
  {
    var s, newest := w.stream, HighWater(Stored(w.stream.log, w.gone));
    if s.snapshot {
      var t := s.(snapshot := false, start := Some(newest), resume := Some(newest));
      assert Settled(s.log, s.sent, t.start, newest);
      assert Valid(t);
      SubscribeKeeps(t);
    } else {
      SubscribeKeeps(s);
    }
    hide Valid;
  }

  lemma PublishRooted(s: State, e: Event, full: bool)
    requires Rooted(s)
    ensures Rooted(PublishStep(s, e, full)) && PublishStep(s, e, full).log == s.log
  {
  }

  lemma ReceiveRooted(s: State)
    requires Rooted(s) && s.phase in {Draining, Live} && s.channel.buffer != []
    ensures Rooted(DrainStep(s)) && DrainStep(s).log == s.log
    ensures Rooted(LiveStep(s)) && LiveStep(s).log == s.log
  {
  }

  lemma OtherRooted(s: State, a: Action)
    requires Rooted(s) && Enabled(s, a) && !a.Subscribe? && !a.NextPage?
    ensures Rooted(Step(s, a)) && (a.Commit? || Step(s, a).log == s.log)
  {
    hide SubscribeStep, PageStep, PublishStep, DrainStep, LiveStep;
    match a
    case Publish(e, full) => PublishRooted(s, e, full);
    case DrainEvent => ReceiveRooted(s);
    case LiveEvent => ReceiveRooted(s);
    case _ =>
  }

  lemma MarkedValid(s: State, marker: nat)
    requires Valid(s)
    ensures Valid(s.(marker := Some(marker)))
  {
    hide Settled, SeenSent, ValidLog, ValidChannel, InLog;
  }

  lemma CommitOldest(log: seq<Event>, gone: set<nat>, e: Event)
    requires ValidLog(log) && FromLog(log, gone) && Oldest(log, gone) && e.cursor > HighWater(log)
    ensures FromLog(log + [e], gone) && Oldest(log + [e], gone)
  {
    forall c | c in gone ensures InLog(log + [e], c) && c < e.cursor {
      InLogCommit(log, e, c);
    }
  }

  lemma EvictedFromLog(log: seq<Event>, gone: set<nat>, rows: set<nat>)
    requires ValidLog(log) && FromLog(log, gone)
    ensures FromLog(log, Evicted(log, gone, rows))
  {
  }

  lemma MoveKeeps(w: World, m: Move)
    requires ValidWorld(w) && Orderly(w, m)
    ensures ValidWorld(Next(w, m))
  {
    var s := w.stream;
    assert ValidLog(s.log);
    if m.Evict? {
      EvictedFromLog(s.log, w.gone, m.rows);
      return;
    }
    hide Valid, Rooted, FromLog, Oldest, Step, PageStored, SubscribeStored, Evicted, InOrder, Stored, ValidLog;
    if Enabled(s, m.a) {
      match m.a
      case Subscribe => SubscribeStoredKeeps(w);
      case NextPage(limit) => PageStoredKeeps(w, limit); PageStoredRooted(w, limit);
      case Mark => MarkedValid(s, HighWater(Stored(s.log, w.gone))); OtherMarked(s, HighWater(Stored(s.log, w.gone)));
      case _ => OtherKeeps(w, m.a);
    }
  }

  /** A snapshot starts at the newest row that is left, or at the start of the outbox if there is none; so does the
      marker "live" end. */
  lemma NewestStored(w: World)
    requires Sorted(w.stream.log)
    ensures var newest := HighWater(Stored(w.stream.log, w.gone));
            && (newest == 0 || exists e :: e in w.stream.log && e.cursor !in w.gone && e.cursor == newest)
            && (forall e | e in w.stream.log && e.cursor !in w.gone :: e.cursor <= newest)
            && (w.stream.phase == Subscribing && w.stream.snapshot ==>
                  var t := Next(w, Do(Subscribe)).stream; t.start == Some(newest) && t.phase == Paging && t.cursor == newest)
            && (w.stream.phase == Live && w.stream.marker.None? ==> Next(w, Do(Mark)).stream.marker == Some(newest))
  {
    StoredMembers(w.stream.log, w.gone);
    NewestOf(Stored(w.stream.log, w.gone));
    hide Stored, HighWater, Sorted;
  }

  lemma NewestOf(rows: seq<Event>)
    requires Sorted(rows)
    ensures HighWater(rows) == 0 || exists e :: e in rows && e.cursor == HighWater(rows)
    ensures forall e | e in rows :: e.cursor <= HighWater(rows)
  {
    assert rows != [] ==> rows[|rows| - 1] in rows;
    forall e | e in rows ensures e.cursor <= HighWater(rows) {
      var i :| 0 <= i < |rows| && rows[i] == e;
    }
  }

  lemma OtherMarked(s: State, marker: nat)
    requires Rooted(s)
    ensures Rooted(s.(marker := Some(marker)))
  {
  }

  lemma OtherKeeps(w: World, a: Action)
    requires ValidWorld(w) && InOrder(w.stream, a) && Enabled(w.stream, a) && !a.Subscribe? && !a.NextPage?
    ensures ValidWorld(w.(stream := Step(w.stream, a)))
  {
    var s := w.stream;
    StepKeeps(s, a);
    OtherRooted(s, a);
    assert ValidLog(s.log);
    if a.Commit? {
      CommitOldest(s.log, w.gone, a.e);
      assert Step(s, a).log == s.log + [a.e];
    }
    hide Valid, Rooted, Step;
  }

  lemma {:induction false} MovesKeep(w: World, moves: seq<Move>)
    requires ValidWorld(w) && RunOrderly(w, moves)
    ensures ValidWorld(RunMoves(w, moves))
    decreases |moves|
  {
    hide ValidWorld, Next, Orderly;
    if moves != [] {
      MoveKeeps(w, moves[0]);
      MovesKeep(Next(w, moves[0]), moves[1..]);
    }
  }

  /** The client is owed what it asked for; if it asked for the start, what comes after some evicted event. */
  ghost predicate OwedFrom(w: World, cursor: nat) {
    && !w.stream.snapshot && w.stream.start.Some?
    && (w.stream.start == Some(cursor) || (cursor == 0 && w.stream.start.value in w.gone))
  }

  lemma OwedStep(w: World, m: Move, cursor: nat)
    requires OwedFrom(w, cursor) && Sorted(w.stream.log)
    ensures OwedFrom(Next(w, m), cursor)
  {
    NewestGoneIs(w.stream.log, w.gone);
    hide NewestGone, Sorted, Stored, ListOutboxEvents;
  }

  lemma {:induction false} OwedRun(w: World, moves: seq<Move>, cursor: nat)
    requires ValidWorld(w) && RunOrderly(w, moves) && OwedFrom(w, cursor)
    ensures OwedFrom(RunMoves(w, moves), cursor)
    decreases |moves|
  {
    if moves != [] {
      MoveKeeps(w, moves[0]);
      OwedStep(w, moves[0], cursor);
      hide ValidWorld, Next, Orderly, OwedFrom;
      OwedRun(Next(w, moves[0]), moves[1..], cursor);
    }
  }

  /** As long as the oldest rows are evicted, streams still have no gap: in every reachable state each wanted event
      after the start and up to the last cursor has been sent.  The start is the cursor that the client asked
      for; if it asked for the start of the outbox, it may be that of an event that was evicted. */
  lemma NoGapEvicting(w: World, mode: Mode, moves: seq<Move>, e: Event)
    requires Initial(w.stream, mode) && FromLog(w.stream.log, w.gone) && Oldest(w.stream.log, w.gone) && RunOrderly(w, moves)
    ensures var t := RunMoves(w, moves).stream;
            && (t.last.Some? ==> t.start.Some?)
            && (mode.AfterCursor? ==> OwedFrom(RunMoves(w, moves), mode.cursor))
            && (t.last.Some? && e in t.log && Wanted(e) && t.start.value < e.cursor <= t.last.value ==> e in t.sent)
  {
    InitialValid(w.stream, mode);
    MovesKeep(w, moves);
    assert Valid(RunMoves(w, moves).stream);
    if mode.AfterCursor? {
      OwedRun(w, moves, mode.cursor);
    }
  }

  // ---- Eviction by age ------------------------------------------------------------------------------------

  /** The rows are the oldest of those that are there, by creation time and then insertion. */
  ghost predicate ByAge(log: seq<Event>, gone: set<nat>, age: nat -> nat, rows: set<nat>) {
    forall d, e | d in log && e in log && d.cursor !in gone && e.cursor in rows && age(d.cursor) <= age(e.cursor) ::
      d.cursor in rows
  }

  ghost predicate AgesInOrder(log: seq<Event>, age: nat -> nat) {
    forall d, e | d in log && e in log && e.kindOK && age(e.cursor) < age(d.cursor) :: e.cursor < d.cursor
  }

  ghost predicate AgeSafe(log: seq<Event>, gone: set<nat>, age: nat -> nat, rows: set<nat>) {
    Oldest(log, gone) && ByAge(log, gone, age, rows) ==> Oldest(log, gone + rows)
  }

  /** Evicting by age takes the oldest events, whatever the cut-off and the batches, exactly if the events
      were created in the order of their cursors. */
  lemma AgeExact(log: seq<Event>, age: nat -> nat)
    ensures (forall gone, rows :: AgeSafe(log, gone, age, rows)) <==> AgesInOrder(log, age)
  {
    if forall gone, rows :: AgeSafe(log, gone, age, rows) {
      forall d, e | d in log && e in log && e.kindOK && age(e.cursor) < age(d.cursor) ensures e.cursor < d.cursor {
        var rows := set x | x in log && age(x.cursor) <= age(e.cursor) :: x.cursor;
        assert AgeSafe(log, {}, age, rows);
        assert e.cursor in {} + rows && d.cursor !in {} + rows;
      }
    }
  }

  // ---- A later row ------------------------------------------------------------------------------------------

  const E3 := Event(3, false, false, true, true, true, true)

  /** A client resumes after the first of three published events. */
  const AfterFirst :=
    State([E1, E2, E3], 3, Subscribing, Channel([], false, 0, 0), false, Some(1), Some(1), 0, {}, None, [], [], None)

  lemma OneRowLeft()
    ensures ListOutboxEvents(Stored([E1, E2, E3], {2}), 1, 1000) == Page([E3], false)
  {
    assert [E1, E2, E3][1..] == [E2, E3] && [E2, E3][1..] == [E3] && [E3][1..] == [];
    assert Stored([E3], {2}) == [E3] && Stored([E2, E3], {2}) == [E3] && Stored([E1, E2, E3], {2}) == [E1, E3];
    assert [E1, E3][1..] == [E3] && [E1, E3][0].cursor == 1;
    assert After([E3], 1) == [E3] && After([E1, E3], 1) == [E3];
  }

  const Paging1 := AfterFirst.(phase := Paging, cursor := 1, channel := Channel([], true, 3, 3))
  const Paged3 := Paging1.(phase := Draining, cursor := 3, seen := {3}, last := Some(3), sent := [E3], call := [3])

  lemma VanishFirst()
    ensures Next(World(AfterFirst, {}), Evict({2})) == World(AfterFirst, {2})
    ensures Next(World(AfterFirst, {2}), Do(Subscribe)) == World(Paging1, {2})
  {
    assert E2 in AfterFirst.log && Evicted(AfterFirst.log, {}, {2}) == {2};
    hide Stored;
  }

  lemma OneSent(s: State, e: Event)
    requires Wanted(e) && s.sent == [] && s.seen == {} && s.call == []
    ensures ConsumePage(s, [e], false) ==
            s.(sent := [e], seen := {e.cursor}, call := [e.cursor], cursor := e.cursor, last := Some(e.cursor), phase := Draining)
  {
    assert [e][..0] == [] && Sendable([]) == [];
    assert Sendable([e]) == [e] && Cursors([e]) == {e.cursor} && CursorList([e]) == [e.cursor];
  }

  lemma OnePage(w: World, limit: nat, e: Event)
    requires w.stream.phase == Paging && w.stream.cursor != 0 && limit > 0
    requires ListOutboxEvents(Stored(w.stream.log, w.gone), w.stream.cursor, limit) == Page([e], false)
    ensures Next(w, Do(NextPage(limit))) == w.(stream := ConsumePage(w.stream, [e], false))
  {
    hide ListOutboxEvents, Stored, ConsumePage;
  }

  lemma VanishPage()
    ensures Next(World(Paging1, {2}), Do(NextPage(1000))) == World(Paged3, {2})
  {
    OneRowLeft();
    hide Next, Stored, ListOutboxEvents, ConsumePage;
    OnePage(World(Paging1, {2}), 1000, E3);
    OneSent(Paging1, E3);
  }

  lemma MovesFirst(w: World, m: Move, more: seq<Move>)
    ensures RunMoves(w, [m] + more) == RunMoves(Next(w, m), more)
  {
    hide Next;
    assert ([m] + more)[0] == m && ([m] + more)[1..] == more;
  }

  lemma ThreeMoves(w: World, a: Move, b: Move, c: Move)
    ensures RunMoves(w, [a, b, c]) == Next(Next(Next(w, a), b), c)
  {
    hide Next;
    MovesFirst(Next(Next(w, a), b), c, []);
    MovesFirst(Next(w, a), b, [c]);
    MovesFirst(w, a, [b, c]);
    assert [c] + [] == [c] && [b] + [c] == [b, c] && [a] + [b, c] == [a, b, c];
  }

  /** If an event with an earlier creation time has a later cursor, its eviction makes it vanish without notice. */
  lemma LaterRowVanishes()
    ensures Initial(AfterFirst, AfterCursor(1))
    ensures var t := RunMoves(World(AfterFirst, {}), [Evict({2}), Do(Subscribe), Do(NextPage(1000))]).stream;
            && t.phase == Draining && t.start == Some(1) && t.last == Some(3) && t.published == 3
            && Wanted(E2) && E2 in t.log && E2 !in t.sent && t.channel.buffer == []
  {
    assert ValidLog([E1, E2, E3]);
    VanishFirst();
    VanishPage();
    hide Next, RunMoves;
    ThreeMoves(World(AfterFirst, {}), Evict({2}), Do(Subscribe), Do(NextPage(1000)));
  }
}
