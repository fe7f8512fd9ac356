/** The event stream as a state machine against its environment, and what every run guarantees
    (internal/grpc/server.go:7229-7381 and 7456-7579). */
module EventDelivery {
  import opened Wrappers
  import opened EventStream

  datatype Phase = Subscribing | Paging | Draining | Live | Closed

  /** What the client asked for: live events only, events after a cursor, or a snapshot first. */
  datatype Mode = LiveOnly | AfterCursor(cursor: nat) | CurrentState

  /** `subscribedAt`: how far the relay had published when the channel was subscribed.  `offered`: the
      channel was offered all events up to this cursor since then. */
  datatype Channel = Channel(buffer: seq<Event>, open: bool, subscribedAt: nat, offered: nat)

  /** `published`: the relay has published the log up to this cursor.  `start`: the client is owed the
      events after this cursor.  `call`: the cursors that the current replay call has sent.  `marker`: the
      cursor that was sent with the marker "live", once it was sent. */
  datatype State = State(
    log: seq<Event>, published: nat,
    phase: Phase, channel: Channel,
    snapshot: bool, start: Option<nat>, resume: Option<nat>,
    cursor: nat, seen: set<nat>, last: Option<nat>, sent: seq<Event>, call: seq<nat>, marker: Option<nat>)

  datatype Action =
    | Commit(e: Event)
    | Publish(e: Event, full: bool)
    | PublishTransient(e: Event)
    | CloseChannel
    | Subscribe
    | NextPage(limit: nat)
    | DrainEvent
    | DrainDone
    | Mark
    | LiveEvent
    | Recover(supported: bool)
    | Stop

  ghost predicate Initial(s: State, mode: Mode) {
    && ValidLog(s.log) && InLog(s.log, s.published)
    && s.phase == Subscribing && s.channel.buffer == [] && s.seen == {} && s.last.None? && s.sent == [] && s.call == []
    && s.snapshot == mode.CurrentState?
    && s.start == s.resume == if mode.AfterCursor? then Some(mode.cursor) else None
  }

  ghost predicate ValidLog(log: seq<Event>) {
    Sorted(log) && forall e | e in log :: Durable(e)
  }

  /** `cursor` is that of a committed event, or 0. */
  ghost predicate InLog(log: seq<Event>, cursor: nat) {
    cursor == 0 || exists e | e in log :: e.cursor == cursor
  }

  predicate Subscribed(s: State) {
    s.phase in {Paging, Draining, Live}
  }

  function HighWater(log: seq<Event>): nat {
    if log == [] then 0 else log[|log| - 1].cursor
  }

  // ---- Steps ------------------------------------------------------------------------------------

  ghost predicate Enabled(s: State, a: Action) {
    match a
    case Commit(e) => Durable(e) && e.cursor > HighWater(s.log)
    case Publish(e, full) => e in s.log
    case PublishTransient(e) => e.cursor == 0 && e.routed
    case CloseChannel => Subscribed(s)
    case Subscribe => s.phase == Subscribing
    case NextPage(limit) => s.phase == Paging && limit > 0
    case DrainEvent => s.phase == Draining && s.channel.buffer != []
    case DrainDone => s.phase == Draining && s.channel.buffer == [] && s.channel.open
    case Mark => s.phase == Live && s.marker.None?
    case LiveEvent => s.phase == Live && s.marker.Some? && s.channel.buffer != []
    case Recover(supported) =>
      && (s.phase == Draining || (s.phase == Live && s.marker.Some?))
      && s.channel.buffer == [] && !s.channel.open
    case Stop => true
  }

  function PublishStep(s: State, e: Event, full: bool): State {
    var t := s.(published := if e.cursor > s.published then e.cursor else s.published);
    if !Subscribed(s) || !s.channel.open then t
    else if !e.routed then t.(channel := s.channel.(offered := t.published))
    else if full then t.(channel := s.channel.(open := false))
    else t.(channel := s.channel.(buffer := s.channel.buffer + [e], offered := t.published))
  }

  function SubscribeStep(s: State): State {
    var t := s.(channel := Channel([], true, s.published, s.published), call := []);
    var u :=
      if s.snapshot then t.(snapshot := false, start := Some(HighWater(s.log)), resume := Some(HighWater(s.log)))
      else if s.start.None? then t.(start := Some(s.published))
      else t;
    if u.resume.Some? then u.(phase := Paging, cursor := u.resume.value, seen := {})
    else u.(phase := Live, marker := None)
  }

  function PageStep(s: State, limit: nat): State {
    match ListOutboxEvents(s.log, s.cursor, limit)
    case Stale => s.(phase := Closed)
    case Page(events, hasMore) => ConsumePage(s, events, hasMore)
  }

  function ConsumePage(s: State, events: seq<Event>, hasMore: bool): State {
    s.(sent := s.sent + Sendable(events),
       seen := s.seen + Cursors(events),
       call := s.call + CursorList(Sendable(events)),
       cursor := if events == [] then s.cursor else events[|events| - 1].cursor,
       last := if events == [] then s.last else Some(events[|events| - 1].cursor),
       phase := if hasMore then Paging else Draining)
  }

  function CursorList(events: seq<Event>): (r: seq<nat>)
    ensures |r| == |events| && forall i | 0 <= i < |r| :: r[i] == events[i].cursor
  {
    seq(|events|, i requires 0 <= i < |events| => events[i].cursor)
  }

  /** The channel once its front event is received. */
  function Rest(ch: Channel): Channel
    requires ch.buffer != []
  {
    ch.(buffer := ch.buffer[1..])
  }

  /** One event while draining: events that were paged are dropped; the cursor moves before the filters. */
  function DrainStep(s: State): State
    requires s.channel.buffer != []
  {
    var e, t := s.channel.buffer[0], s.(channel := Rest(s.channel));
    if e.isInternal then t
    else if e.cursor != 0 && e.cursor in s.seen then t
    else
      var u := if e.cursor != 0 then t.(last := Some(e.cursor)) else t;
      if e.kindOK && e.matches && e.enriched
      then u.(sent := s.sent + [e], call := if e.cursor != 0 then s.call + [e.cursor] else s.call)
      else u
  }

  /** One event while live: the cursor moves only for events that pass the filters. */
  function LiveStep(s: State): State
    requires s.channel.buffer != []
  {
    var e, t := s.channel.buffer[0], s.(channel := Rest(s.channel));
    if e.isInternal || !e.kindOK || !e.matches then t
    else if e.isStream then t.(sent := s.sent + [e])
    else
      var u := if e.cursor != 0 then t.(last := Some(e.cursor)) else t;
      if e.enriched then u.(sent := s.sent + [e]) else u
  }

  ghost function Step(s: State, a: Action): State {
    if !Enabled(s, a) then s
    else match a
      case Commit(e) => s.(log := s.log + [e])
      case Publish(e, full) => PublishStep(s, e, full)
      case PublishTransient(e) =>
        if Subscribed(s) && s.channel.open then s.(channel := s.channel.(buffer := s.channel.buffer + [e])) else s
      case CloseChannel => s.(channel := s.channel.(open := false))
      case Subscribe => SubscribeStep(s)
      case NextPage(limit) => PageStep(s, limit)
      case DrainEvent => DrainStep(s)
      case DrainDone => s.(phase := Live, resume := None, marker := None)
      case Mark => s.(marker := Some(HighWater(s.log)))
      case LiveEvent => LiveStep(s)
      case Recover(supported) =>
        if supported && s.last.Some? then s.(phase := Subscribing, resume := s.last) else s.(phase := Closed)
      case Stop => s.(phase := Closed)
  }

  ghost function Run(s: State, actions: seq<Action>): State
    decreases |actions|
  {
    if actions == [] then s else Run(Step(s, actions[0]), actions[1..])
  }

  /** The relay publishes in cursor order; after a restart it publishes events again that it had
      published before. */
  ghost predicate InOrder(s: State, a: Action) {
    a.Publish? && a.e in s.log ==>
      a.e.cursor <= s.published || forall e | e in s.log && e.cursor > s.published :: e.cursor >= a.e.cursor
  }

  ghost predicate RunInOrder(s: State, actions: seq<Action>)
    decreases |actions|
  {
    actions == [] || (InOrder(s, actions[0]) && RunInOrder(Step(s, actions[0]), actions[1..]))
  }

  // ---- Invariants ----------------------------------------------------------------------------------

  /** Every wanted event after `from` and up to `to` has been sent. */
  ghost predicate Covered(log: seq<Event>, sent: seq<Event>, from: nat, to: nat) {
    forall e | e in log && Wanted(e) && from < e.cursor <= to :: e in sent
  }

  /** Nothing is owed up to `to`, now or later: `to` lies in the log or before the start. */
  ghost predicate Settled(log: seq<Event>, sent: seq<Event>, start: Option<nat>, to: nat) {
    start.Some? && Covered(log, sent, start.value, to) && (to <= start.value || InLog(log, to))
  }

  /** What is wanted up to the event at `i`, and was published since, has been sent or is not behind it. */
  ghost predicate Ahead(log: seq<Event>, sent: seq<Event>, buffer: seq<Event>, low: nat, i: nat)
    requires i < |buffer|
  {
    forall e | e in log && Wanted(e) && low < e.cursor <= buffer[i].cursor :: e in sent || e in buffer[..i + 1]
  }

  /** What is buffered was published up to the cursor `high`, and new events are in cursor order. */
  ghost predicate ValidBuffer(log: seq<Event>, sent: seq<Event>, buffer: seq<Event>, low: nat, high: nat) {
    && (forall e | e in buffer && e.cursor > 0 :: e in log && e.cursor <= high)
    && (forall e | e in buffer :: e.routed)
    && (forall i | 0 <= i < |buffer| :: Ahead(log, sent, buffer, low, i))
  }

  /** Nothing that the channel was offered is lost. */
  ghost predicate OfferedKept(log: seq<Event>, sent: seq<Event>, buffer: seq<Event>, low: nat, high: nat) {
    forall e | e in log && Wanted(e) && low < e.cursor <= high :: e in sent || e in buffer
  }

  /** The paged cursors are those of committed events, and what is wanted of these has been sent. */
  ghost predicate SeenSent(log: seq<Event>, sent: seq<Event>, seen: set<nat>) {
    && (forall c | c in seen :: InLog(log, c))
    && forall e | e in log && Wanted(e) && e.cursor in seen :: e in sent
  }

  ghost predicate ValidChannel(log: seq<Event>, published: nat, sent: seq<Event>, ch: Channel) {
    && InLog(log, ch.subscribedAt)
    && ch.subscribedAt <= ch.offered <= published && (ch.open ==> ch.offered == published)
    && ValidBuffer(log, sent, ch.buffer, ch.subscribedAt, ch.offered)
    && OfferedKept(log, sent, ch.buffer, ch.subscribedAt, ch.offered)
  }

  ghost predicate ChannelOK(s: State) {
    ValidChannel(s.log, s.published, s.sent, s.channel)
  }

  /** What each phase of the stream may rely on. */
  ghost predicate ValidPhase(s: State) {
    match s.phase
    case Subscribing => if s.resume.Some? then Settled(s.log, s.sent, s.start, s.resume.value) else s.start.None?
    case Paging => ChannelOK(s) && Settled(s.log, s.sent, s.start, s.cursor) && SeenSent(s.log, s.sent, s.seen)
    case Draining => ChannelOK(s) && Settled(s.log, s.sent, s.start, s.channel.subscribedAt) && SeenSent(s.log, s.sent, s.seen)
    case Live => ChannelOK(s) && Settled(s.log, s.sent, s.start, s.channel.subscribedAt)
    case Closed => true
  }

  ghost predicate Valid(s: State) {
    && ValidLog(s.log) && InLog(s.log, s.published)
    && (s.snapshot ==> s.start.None?)
    && (s.last.Some? ==> InLog(s.log, s.last.value) && Settled(s.log, s.sent, s.start, s.last.value))
    && ValidPhase(s)
  }

  // ---- Steps of the environment ---------------------------------------------------------------------

  lemma InLogCommit(log: seq<Event>, e: Event, c: nat)
    requires ValidLog(log) && InLog(log, c) && e.cursor > HighWater(log)
    ensures InLog(log + [e], c) && c < e.cursor
  {
    if c != 0 {
      var d :| d in log && d.cursor == c;
      assert d in log + [e];
    }
  }

  lemma SettledCommit(log: seq<Event>, e: Event, sent: seq<Event>, start: Option<nat>, to: nat)
    requires ValidLog(log) && Settled(log, sent, start, to) && e.cursor > HighWater(log)
    ensures Settled(log + [e], sent, start, to)
  {
    if InLog(log, to) {
      InLogCommit(log, e, to);
    }
  }

  lemma ChannelCommit(log: seq<Event>, e: Event, published: nat, sent: seq<Event>, ch: Channel)
    requires ValidLog(log) && InLog(log, published) && ValidChannel(log, published, sent, ch) && e.cursor > HighWater(log)
    ensures ValidChannel(log + [e], published, sent, ch)
  {
    InLogCommit(log, e, published);
    InLogCommit(log, e, ch.subscribedAt);
    forall i | 0 <= i < |ch.buffer| ensures Ahead(log + [e], sent, ch.buffer, ch.subscribedAt, i) {
      assert Ahead(log, sent, ch.buffer, ch.subscribedAt, i) && ch.buffer[i] in ch.buffer;
    }
    hide Ahead;
  }

  lemma SeenCommit(log: seq<Event>, e: Event, sent: seq<Event>, seen: set<nat>)
    requires ValidLog(log) && SeenSent(log, sent, seen) && e.cursor > HighWater(log)
    ensures SeenSent(log + [e], sent, seen)
  {
    forall c | c in seen ensures InLog(log + [e], c) && c < e.cursor {
      InLogCommit(log, e, c);
    }
  }

  lemma CommitKeeps(s: State, e: Event)
    requires Valid(s) && Durable(e) && e.cursor > HighWater(s.log)
    ensures Valid(s.(log := s.log + [e]))
  {
    hide Settled, Covered, InLog, ValidChannel, SeenSent;
    InLogCommit(s.log, e, s.published);
    if s.last.Some? {
      InLogCommit(s.log, e, s.last.value);
    }
    if Subscribed(s) {
      ChannelCommit(s.log, e, s.published, s.sent, s.channel);
    }
    if s.phase in {Paging, Draining} {
      SeenCommit(s.log, e, s.sent, s.seen);
    }
    assert s.log != [] ==> s.log[|s.log| - 1].cursor < e.cursor;
    forall to | Settled(s.log, s.sent, s.start, to) ensures Settled(s.log + [e], s.sent, s.start, to) {
      SettledCommit(s.log, e, s.sent, s.start, to);
    }
  }

  lemma SameCursor(log: seq<Event>, d: Event, e: Event)
    requires Sorted(log) && d in log && e in log && d.cursor == e.cursor
    ensures d == e
  {
  }

  lemma AheadPublished(s: State, e: Event, i: nat)
    requires ValidLog(s.log) && e in s.log && InOrder(s, Publish(e, false)) && ChannelOK(s) && s.channel.open
    requires i <= |s.channel.buffer|
    ensures Ahead(s.log, s.sent, s.channel.buffer + [e], s.channel.subscribedAt, i)
  {
    var ch := s.channel;
    var buffer := ch.buffer + [e];
    if i < |ch.buffer| {
      assert Ahead(s.log, s.sent, ch.buffer, ch.subscribedAt, i);
      assert buffer[..i + 1] == ch.buffer[..i + 1];
    } else {
      assert buffer[..i + 1] == buffer;
      forall d | d in s.log && Wanted(d) && ch.subscribedAt < d.cursor <= e.cursor ensures d in s.sent || d in buffer {
        if d.cursor > ch.offered {
          SameCursor(s.log, d, e);
        }
      }
    }
  }

  /** A published event extends what the channel was offered by at most that event. */
  lemma ChannelPublish(s: State, e: Event)
    requires ValidLog(s.log) && e in s.log && InOrder(s, Publish(e, false)) && ChannelOK(s) && s.channel.open
    ensures var published := if e.cursor > s.published then e.cursor else s.published;
            var ch := s.channel.(buffer := s.channel.buffer + [e], offered := published);
            && (e.routed ==> ValidChannel(s.log, published, s.sent, ch))
            && (!e.routed ==> ValidChannel(s.log, published, s.sent, s.channel.(offered := published)))
            && ValidChannel(s.log, published, s.sent, s.channel.(open := false))
  {
    var ch := s.channel;
    forall i | 0 <= i <= |ch.buffer| ensures Ahead(s.log, s.sent, ch.buffer + [e], ch.subscribedAt, i) {
      AheadPublished(s, e, i);
    }
    hide Ahead;
    forall d | d in s.log && Wanted(d) && ch.subscribedAt < d.cursor && (d.cursor <= s.published || d.cursor <= e.cursor)
      ensures d in s.sent || d in ch.buffer || d == e
    {
      if d.cursor > ch.offered {
        SameCursor(s.log, d, e);
      }
    }
  }

  lemma PublishKeeps(s: State, e: Event, full: bool)
    requires Valid(s) && e in s.log && InOrder(s, Publish(e, full))
    ensures Valid(PublishStep(s, e, full))
  {
    assert InLog(s.log, e.cursor);
    if Subscribed(s) && s.channel.open {
      ChannelPublish(s, e);
    } else if Subscribed(s) {
      assert ValidChannel(s.log, if e.cursor > s.published then e.cursor else s.published, s.sent, s.channel);
    }
    hide Settled, SeenSent, ValidLog, ValidChannel, InLog;
  }

  lemma TransientKeeps(s: State, e: Event)
    requires Valid(s) && e.cursor == 0 && e.routed && Subscribed(s)
    ensures Valid(s.(channel := s.channel.(buffer := s.channel.buffer + [e])))
  {
    hide Settled, SeenSent;
    var buffer := s.channel.buffer + [e];
    forall d | d in s.channel.buffer ensures d in buffer {}
    forall i | 0 <= i < |buffer| ensures Ahead(s.log, s.sent, buffer, s.channel.subscribedAt, i) {
      if i < |s.channel.buffer| {
        assert Ahead(s.log, s.sent, s.channel.buffer, s.channel.subscribedAt, i);
        assert buffer[..i + 1] == s.channel.buffer[..i + 1];
      }
    }
  }

  // ---- Steps of the stream ----------------------------------------------------------------------------

  lemma HighWaterIn(log: seq<Event>)
    ensures InLog(log, HighWater(log))
  {
    if log != [] {
      assert log[|log| - 1] in log;
    }
  }

  lemma SubscribeKeeps(s: State)
    requires Valid(s) && s.phase == Subscribing
    ensures Valid(SubscribeStep(s))
  {
    HighWaterIn(s.log);
  }

  lemma {:induction false} SendableOf(log: seq<Event>, cursor: nat, rows: seq<Event>, limit: nat)
    requires Sorted(log) && rows == After(log, cursor)
    ensures forall e | e in rows :: e in log && e.cursor > cursor
    ensures |rows| <= limit ==> forall e | e in log && Wanted(e) && e.cursor > cursor :: e in Sendable(rows)
    ensures |rows| > limit > 0 ==>
      forall e | e in log && Wanted(e) && cursor < e.cursor <= rows[limit - 1].cursor :: e in Sendable(rows[..limit])
  {
    AfterMembers(log, cursor);
    SendableMembers(rows);
    if |rows| > limit > 0 {
      SendableMembers(rows[..limit]);
      forall e | e in rows && e.cursor <= rows[limit - 1].cursor ensures e in rows[..limit] {
        var i :| 0 <= i < |rows| && rows[i] == e;
        assert i < limit;
      }
    }
  }

  /** A page covers the log up to its last event, and the last page covers all of it. */
  lemma PageCovers(log: seq<Event>, sent: seq<Event>, start: nat, cursor: nat, limit: nat, events: seq<Event>, hasMore: bool)
    requires ValidLog(log) && Covered(log, sent, start, cursor) && limit > 0
    requires ListOutboxEvents(log, cursor, limit) == Page(events, hasMore)
    ensures events != [] ==> events[|events| - 1] in log && events[|events| - 1].cursor > cursor
    ensures events != [] ==> Covered(log, sent + Sendable(events), start, events[|events| - 1].cursor)
    ensures !hasMore ==> forall to :: Covered(log, sent + Sendable(events), start, to)
    ensures forall e | e in events :: e in log
  {
    var rows := After(log, cursor);
    SendableOf(log, cursor, rows, limit);
    assert events != [] ==> events[|events| - 1] in rows;
  }

  lemma PageSeen(log: seq<Event>, sent: seq<Event>, seen: set<nat>, events: seq<Event>)
    requires ValidLog(log) && SeenSent(log, sent, seen) && forall e | e in events :: e in log
    ensures SeenSent(log, sent + Sendable(events), seen + Cursors(events))
  {
    SendableMembers(events);
    forall e | e in log && Wanted(e) && e.cursor in seen + Cursors(events) ensures e in sent + Sendable(events) {
      if e.cursor !in seen {
        var d :| d in events && d.cursor == e.cursor;
        SameCursor(log, d, e);
      }
    }
  }

  /** Sending more undoes nothing. */
  lemma SentMore(s: State, more: seq<Event>)
    requires Valid(s)
    ensures s.last.Some? ==> Settled(s.log, s.sent + more, s.start, s.last.value)
    ensures s.phase == Paging ==> Settled(s.log, s.sent + more, s.start, s.cursor)
    ensures s.phase in {Draining, Live} ==> Settled(s.log, s.sent + more, s.start, s.channel.subscribedAt)
    ensures Subscribed(s) ==> ValidChannel(s.log, s.published, s.sent + more, s.channel)
  {
    forall i | 0 <= i < |s.channel.buffer| && Subscribed(s)
      ensures Ahead(s.log, s.sent + more, s.channel.buffer, s.channel.subscribedAt, i)
    {
      assert Ahead(s.log, s.sent, s.channel.buffer, s.channel.subscribedAt, i);
    }
    hide InLog, ValidLog, Ahead;
  }

  lemma PageSettles(s: State, limit: nat, events: seq<Event>, hasMore: bool)
    requires Valid(s) && s.phase == Paging && limit > 0
    requires ListOutboxEvents(s.log, s.cursor, limit) == Page(events, hasMore)
    ensures var sent := s.sent + Sendable(events);
            && (events != [] ==>
                  InLog(s.log, events[|events| - 1].cursor) && Settled(s.log, sent, s.start, events[|events| - 1].cursor))
            && (!hasMore ==> Settled(s.log, sent, s.start, s.channel.subscribedAt))
            && SeenSent(s.log, sent, s.seen + Cursors(events))
  {
    hide ListOutboxEvents;
    PageCovers(s.log, s.sent, s.start.value, s.cursor, limit, events, hasMore);
    PageSeen(s.log, s.sent, s.seen, events);
  }

  lemma PageKeeps(s: State, limit: nat)
    requires Valid(s) && s.phase == Paging && limit > 0
    ensures Valid(PageStep(s, limit))
  {
    hide Settled, SeenSent, ValidLog, ValidChannel, InLog, ListOutboxEvents, Sendable, Cursors, CursorList;
    var page := ListOutboxEvents(s.log, s.cursor, limit);
    if page.Page? {
      PageSettles(s, limit, page.events, page.hasMore);
      SentMore(s, Sendable(page.events));
    }
  }

  lemma AheadRest(log: seq<Event>, sent: seq<Event>, more: seq<Event>, buffer: seq<Event>, low: nat, i: nat)
    requires i + 1 < |buffer| && Ahead(log, sent, buffer, low, i + 1) && sent <= more
    requires buffer[0] in log && Wanted(buffer[0]) ==> buffer[0] in more
    ensures Ahead(log, more, buffer[1..], low, i)
  {
    forall d | d in sent ensures d in more {}
    assert buffer[..i + 2] == [buffer[0]] + buffer[1..][..i + 1];
  }

  lemma FrontChannel(log: seq<Event>, published: nat, sent: seq<Event>, more: seq<Event>, ch: Channel)
    requires ValidChannel(log, published, sent, ch) && ch.buffer != [] && sent <= more
    requires ch.buffer[0] in log && Wanted(ch.buffer[0]) ==> ch.buffer[0] in more
    ensures ValidChannel(log, published, more, Rest(ch))
  {
    var e, rest := ch.buffer[0], ch.buffer[1..];
    assert ch.buffer == [e] + rest;
    forall d | d in sent ensures d in more {}
    forall d | d in rest ensures d in ch.buffer {}
    forall i | 0 <= i < |rest| ensures Ahead(log, more, rest, ch.subscribedAt, i) {
      AheadRest(log, sent, more, ch.buffer, ch.subscribedAt, i);
    }
    hide Ahead;
  }

  /** Up to the front of the buffer everything is sent, because nothing new is behind it. */
  lemma FrontCovers(log: seq<Event>, published: nat, sent: seq<Event>, more: seq<Event>, start: nat, ch: Channel)
    requires ValidChannel(log, published, sent, ch) && ch.buffer != [] && sent <= more
    requires Covered(log, sent, start, ch.subscribedAt)
    requires ch.buffer[0] in log && Wanted(ch.buffer[0]) ==> ch.buffer[0] in more
    ensures ch.buffer[0].cursor > 0 ==> Settled(log, more, Some(start), ch.buffer[0].cursor)
  {
    var e := ch.buffer[0];
    assert e in ch.buffer;
    forall d | d in sent ensures d in more {}
    if e.cursor > 0 {
      assert InLog(log, e.cursor);
      assert Ahead(log, sent, ch.buffer, ch.subscribedAt, 0);
      assert ch.buffer[..1] == [e];
    }
  }

  /** Taking the front of the buffer: everything owed up to it has been sent, if it has. */
  lemma FrontSettles(s: State, sent: seq<Event>)
    requires Valid(s) && s.phase in {Draining, Live} && s.channel.buffer != [] && s.sent <= sent
    requires var e := s.channel.buffer[0]; e in s.log && Wanted(e) ==> e in sent
    ensures ValidChannel(s.log, s.published, sent, Rest(s.channel))
    ensures s.channel.buffer[0].cursor > 0 ==> Settled(s.log, sent, s.start, s.channel.buffer[0].cursor)
  {
    hide ValidChannel, ValidLog, InLog, Covered, Rest;
    FrontChannel(s.log, s.published, s.sent, sent, s.channel);
    FrontCovers(s.log, s.published, s.sent, sent, s.start.value, s.channel);
  }

  lemma DrainKeeps(s: State)
    requires Valid(s) && s.phase == Draining && s.channel.buffer != []
    ensures Valid(DrainStep(s))
  {
    var e, t := s.channel.buffer[0], DrainStep(s);
    assert e in s.channel.buffer;
    FrontSettles(s, t.sent);
    SentMore(s, t.sent[|s.sent|..]);
    assert t.sent == s.sent + t.sent[|s.sent|..];
    SeenMore(s.log, s.sent, t.sent, s.seen);
    hide Settled, SeenSent, ValidLog, ValidChannel, InLog;
  }

  lemma SeenMore(log: seq<Event>, sent: seq<Event>, more: seq<Event>, seen: set<nat>)
    requires SeenSent(log, sent, seen) && sent <= more
    ensures SeenSent(log, more, seen)
  {
    forall d | d in sent ensures d in more {}
  }

  lemma LiveKeeps(s: State)
    requires Valid(s) && s.phase == Live && s.channel.buffer != []
    ensures Valid(LiveStep(s))
  {
    var e, t := s.channel.buffer[0], LiveStep(s);
    assert e in s.channel.buffer;
    FrontSettles(s, t.sent);
    SentMore(s, t.sent[|s.sent|..]);
    assert t.sent == s.sent + t.sent[|s.sent|..];
    hide Settled, ValidLog, ValidChannel, InLog;
  }

  // ---- Every run ---------------------------------------------------------------------------------------

  lemma StepKeeps(s: State, a: Action)
    requires Valid(s) && InOrder(s, a)
    ensures Valid(Step(s, a))
  {
    hide PublishStep, SubscribeStep, PageStep, DrainStep, LiveStep, InOrder, Settled;
    if Enabled(s, a) {
      match a
      case Commit(e) => CommitKeeps(s, e);
      case Publish(e, full) => PublishKeeps(s, e, full);
      case PublishTransient(e) => if Subscribed(s) && s.channel.open { TransientKeeps(s, e); }
      case CloseChannel =>
      case Subscribe => SubscribeKeeps(s);
      case NextPage(limit) => PageKeeps(s, limit);
      case DrainEvent => DrainKeeps(s);
      case DrainDone =>
      case Mark =>
      case LiveEvent => LiveKeeps(s);
      case Recover(supported) =>
      case Stop =>
    }
  }

  lemma {:induction false} RunKeeps(s: State, actions: seq<Action>)
    requires Valid(s) && RunInOrder(s, actions)
    ensures Valid(Run(s, actions))
    decreases |actions|
  {
    hide Valid, Step, InOrder;
    if actions != [] {
      StepKeeps(s, actions[0]);
      RunKeeps(Step(s, actions[0]), actions[1..]);
    }
  }

  lemma InitialValid(s: State, mode: Mode)
    requires Initial(s, mode)
    ensures Valid(s)
  {
  }

  /** The start is fixed by the first subscription. */
  lemma {:induction false} StartKept(s: State, actions: seq<Action>)
    requires s.start.Some? && !s.snapshot
    ensures Run(s, actions).start == s.start
    decreases |actions|
  {
    if actions != [] {
      assert Step(s, actions[0]).start == s.start && !Step(s, actions[0]).snapshot;
      hide Step;
      StartKept(Step(s, actions[0]), actions[1..]);
    }
  }

  /** Where the guarantee and the paging start: after the cursor that the client asked for; at the newest committed
      event, if it asked for a snapshot; else there is no paging, and all that is published from now on is owed. */
  lemma StartIs(s: State, mode: Mode)
    requires Initial(s, mode)
    ensures var t := Step(s, Subscribe);
            match mode
            case AfterCursor(cursor) => t.start == Some(cursor) && t.phase == Paging && t.cursor == cursor
            case LiveOnly => t.start == Some(s.published) && t.phase == Live
            case CurrentState =>
              && t.start.Some? && t.phase == Paging && t.cursor == t.start.value
              && InLog(s.log, t.start.value) && forall e | e in s.log :: e.cursor <= t.start.value
  {
    if mode.CurrentState? {
      HighWaterIn(s.log);
      forall e | e in s.log ensures e.cursor <= HighWater(s.log) {
        var i :| 0 <= i < |s.log| && s.log[i] == e;
      }
    }
  }

  /** In every reachable state, after any number of slow-consumer recoveries, every event that the
      subscriber wants after the start and up to the last cursor has been sent. */
  lemma NoGap(s: State, mode: Mode, actions: seq<Action>, e: Event)
    requires Initial(s, mode) && RunInOrder(s, actions)
    ensures var t := Run(s, actions);
            && (t.last.Some? ==> t.start.Some?)
            && (mode.AfterCursor? ==> t.start == Some(mode.cursor))
            && (t.last.Some? && e in t.log && e.routed && e.kindOK && e.matches && e.enriched ==>
                  (t.start.value < e.cursor <= t.last.value ==> e in t.sent))
  {
    InitialValid(s, mode);
    RunKeeps(s, actions);
    assert Valid(Run(s, actions));
    if mode.AfterCursor? {
      StartKept(s, actions);
    }
  }

  /** A live stream with an open channel and nothing buffered is caught up with the relay. */
  lemma CaughtUp(s: State, mode: Mode, actions: seq<Action>, e: Event)
    requires Initial(s, mode) && RunInOrder(s, actions)
    ensures var t := Run(s, actions);
            t.phase == Live && t.channel.open && t.channel.buffer == [] ==>
            && t.start.Some?
            && (e in t.log && e.routed && e.kindOK && e.matches && e.enriched && t.start.value < e.cursor <= t.published ==>
                  e in t.sent)
  {
    InitialValid(s, mode);
    RunKeeps(s, actions);
    assert Valid(Run(s, actions));
  }

  /** A client that resumes after the last cursor of one stream misses nothing between the two. */
  lemma ResumedStreams(first: State, mode: Mode, actions: seq<Action>, second: State, more: seq<Action>, e: Event)
    requires Initial(first, mode) && RunInOrder(first, actions) && Run(first, actions).last.Some?
    requires Initial(second, AfterCursor(Run(first, actions).last.value)) && RunInOrder(second, more)
    requires Run(first, actions).log <= Run(second, more).log
    ensures var t, u := Run(first, actions), Run(second, more);
            u.last.Some? && e in u.log && Wanted(e) && t.start.Some? && t.start.value < e.cursor <= u.last.value ==>
            e in t.sent || e in u.sent
  {
    var t, u := Run(first, actions), Run(second, more);
    NoGap(first, mode, actions, e);
    NoGap(second, AfterCursor(t.last.value), more, e);
    InitialValid(first, mode);
    RunKeeps(first, actions);
    InitialValid(second, AfterCursor(t.last.value));
    RunKeeps(second, more);
    assert Valid(t) && Valid(u);
    if e in u.log && e.cursor <= t.last.value && e !in t.log && e.cursor > t.start.value {
      assert InLog(t.log, t.last.value);
      LaterIsLater(t.log, u.log, e, t.last.value);
    }
  }

  lemma LaterIsLater(log: seq<Event>, longer: seq<Event>, e: Event, cursor: nat)
    requires ValidLog(longer) && log <= longer && e in longer && e !in log && InLog(log, cursor)
    ensures e.cursor > cursor
  {
    var i :| 0 <= i < |longer| && longer[i] == e;
    assert i >= |log|;
    if cursor != 0 {
      var d :| d in log && d.cursor == cursor;
      var j :| 0 <= j < |log| && log[j] == d;
    }
  }

  // ---- Only what is wanted is sent ----------------------------------------------------------------------

  ghost predicate SentWanted(s: State) {
    forall e | e in s.sent && e.cursor > 0 :: e in s.log && Wanted(e)
  }

  lemma ReceiveSendsWanted(s: State)
    requires ChannelOK(s) && ValidLog(s.log) && SentWanted(s) && s.channel.buffer != []
    ensures SentWanted(DrainStep(s)) && SentWanted(LiveStep(s))
  {
    hide OfferedKept, InLog;
    assert s.channel.buffer[0] in s.channel.buffer;
  }

  lemma PageSendsWanted(s: State, limit: nat)
    requires ValidLog(s.log) && SentWanted(s)
    ensures SentWanted(PageStep(s, limit))
  {
    var page := ListOutboxEvents(s.log, s.cursor, limit);
    if page.Page? {
      SendableMembers(page.events);
      PageFromLog(s.log, s.cursor, limit, page.events, page.hasMore);
    }
  }

  lemma StepSendsWanted(s: State, a: Action)
    requires Valid(s) && SentWanted(s)
    ensures SentWanted(Step(s, a))
  {
    hide Settled, SeenSent, InLog, ValidLog, ValidChannel, PageStep, DrainStep, LiveStep;
    if Enabled(s, a) {
      match a
      case NextPage(limit) => PageSendsWanted(s, limit);
      case DrainEvent => ReceiveSendsWanted(s);
      case LiveEvent => ReceiveSendsWanted(s);
      case _ =>
    }
  }

  lemma PageFromLog(log: seq<Event>, cursor: nat, limit: nat, events: seq<Event>, hasMore: bool)
    requires Sorted(log) && ListOutboxEvents(log, cursor, limit) == Page(events, hasMore)
    ensures Sorted(events) && forall e | e in events :: e in log && e.cursor > cursor
  {
    AfterMembers(log, cursor);
  }

  /** Every durable event that is sent is committed, and wanted. */
  lemma {:induction false} RunSendsWanted(s: State, actions: seq<Action>)
    requires Valid(s) && SentWanted(s) && RunInOrder(s, actions)
    ensures Valid(Run(s, actions)) && SentWanted(Run(s, actions))
    decreases |actions|
  {
    hide Valid, Step, InOrder, SentWanted;
    if actions != [] {
      StepKeeps(s, actions[0]);
      StepSendsWanted(s, actions[0]);
      RunSendsWanted(Step(s, actions[0]), actions[1..]);
    }
  }

  // ---- Longer runs ------------------------------------------------------------------------------------------

  lemma RunFirst(s: State, a: Action, more: seq<Action>)
    ensures Run(s, [a] + more) == Run(Step(s, a), more)
    ensures RunInOrder(s, [a] + more) <==> InOrder(s, a) && RunInOrder(Step(s, a), more)
  {
    hide Step;
    assert ([a] + more)[0] == a && ([a] + more)[1..] == more;
  }

  lemma {:induction false} RunJoin(s: State, a: seq<Action>, b: seq<Action>)
    ensures Run(s, a + b) == Run(Run(s, a), b)
    decreases |a|
  {
    hide Step;
    if a == [] {
      assert a + b == b;
    } else {
      assert (a + b)[1..] == a[1..] + b;
      RunJoin(Step(s, a[0]), a[1..], b);
    }
  }

  lemma FourSteps(s: State, a: Action, b: Action, c: Action, d: Action)
    ensures Run(s, [a, b, c, d]) == Step(Step(Step(Step(s, a), b), c), d)
  {
    hide Step;
    RunFirst(Step(Step(Step(s, a), b), c), d, []);
    RunFirst(Step(Step(s, a), b), c, [d]);
    RunFirst(Step(s, a), b, [c, d]);
    RunFirst(s, a, [b, c, d]);
    assert [d] + [] == [d] && [c] + [d] == [c, d] && [b] + [c, d] == [b, c, d] && [a] + [b, c, d] == [a, b, c, d];
  }

  // ---- The order of publication matters ----------------------------------------------------------------

  const E1 := Event(1, false, false, true, true, true, true)
  const E2 := Event(2, false, false, true, true, true, true)

  /** A live stream over a log of two wanted events, of which nothing is published yet. */
  const TwoEvents :=
    State([E1, E2], 0, Subscribing, Channel([], false, 0, 0), false, None, None, 0, {}, None, [], [], None)

  const SkippingRun: seq<Action> :=
    [Subscribe, Mark, Publish(E2, false), LiveEvent, CloseChannel, Recover(true), Subscribe, NextPage(1000)]

  lemma NothingAfterTwo()
    ensures ListOutboxEvents([E1, E2], 2, 1000) == Page([], false)
  {
    assert [E1, E2][1..] == [E2];
    assert [E2][1..] == [];
    assert After([E2], 2) == [];
    assert [E1, E2][1].cursor == 2;
  }

  const Skip1 := TwoEvents.(phase := Live, channel := Channel([], true, 0, 0), start := Some(0))
  const Skip2 := Skip1.(marker := Some(2))
  const Skip3 := Skip2.(published := 2, channel := Channel([E2], true, 0, 2))
  const Skip4 := Skip3.(channel := Channel([], true, 0, 2), last := Some(2), sent := [E2])
  const Skip5 := Skip4.(channel := Channel([], false, 0, 2))
  const Skip6 := Skip5.(phase := Subscribing, resume := Some(2))
  const Skip7 := Skip6.(phase := Paging, channel := Channel([], true, 2, 2), cursor := 2)
  const Skip8 := Skip7.(phase := Draining)

  lemma SkipLive()
    ensures Step(TwoEvents, Subscribe) == Skip1 && Step(Skip1, Mark) == Skip2
    ensures Step(Skip2, Publish(E2, false)) == Skip3 && Step(Skip3, LiveEvent) == Skip4
  {
  }

  lemma SkipRecovery()
    ensures Step(Skip4, CloseChannel) == Skip5 && Step(Skip5, Recover(true)) == Skip6 && Step(Skip6, Subscribe) == Skip7
    ensures Step(Skip7, NextPage(1000)) == Skip8
  {
    NothingAfterTwo();
    hide ListOutboxEvents;
    EmptyPage(Skip7, 1000);
  }

  /** If the bus publishes out of order, a recovery skips an event for good. */
  lemma UnorderedBusSkips()
    ensures Initial(TwoEvents, LiveOnly)
    ensures var t := Run(TwoEvents, SkippingRun);
            && t.last == Some(2) && t.start == Some(0) && t.phase == Draining && t.channel.buffer == []
            && Wanted(E1) && E1 in t.log && E1 !in t.sent
  {
    assert ValidLog([E1, E2]);
    assert Skip8.last == Some(2) && Skip8.start == Some(0) && E1 !in Skip8.sent;
    SkipLive();
    SkipRecovery();
    SkipFirst();
    SkipSecond();
    assert [Subscribe, Mark, Publish(E2, false), LiveEvent] + [CloseChannel, Recover(true), Subscribe, NextPage(1000)] == SkippingRun;
    hide Step, Run;
    RunJoin(TwoEvents, [Subscribe, Mark, Publish(E2, false), LiveEvent], [CloseChannel, Recover(true), Subscribe, NextPage(1000)]);
  }

  lemma SkipFirst()
    ensures Run(TwoEvents, [Subscribe, Mark, Publish(E2, false), LiveEvent]) == Skip4
  {
    SkipLive();
    FourSteps(TwoEvents, Subscribe, Mark, Publish(E2, false), LiveEvent);
  }

  lemma SkipSecond()
    ensures Run(Skip4, [CloseChannel, Recover(true), Subscribe, NextPage(1000)]) == Skip8
  {
    SkipRecovery();
    hide Step, Run;
    FourSteps(Skip4, CloseChannel, Recover(true), Subscribe, NextPage(1000));
  }

  /** A query that selects nothing ends the paging. */
  lemma EmptyPage(s: State, limit: nat)
    requires s.phase == Paging && limit > 0 && ListOutboxEvents(s.log, s.cursor, limit) == Page([], false)
    ensures Step(s, NextPage(limit)) == s.(phase := Draining)
  {
    assert Sendable([]) == [] && Cursors([]) == {} && CursorList([]) == [];
    assert s.sent + [] == s.sent && s.seen + {} == s.seen && s.call + [] == s.call;
  }
}
