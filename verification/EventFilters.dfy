/** What a stream may send, and what it must: the filters, for all events and with the order and number of
    what is sent (internal/grpc/server.go:7300-7379 and 7495-7578). */
module EventFilters {
  import opened Wrappers
  import opened EventStream
  import opened EventDelivery

  // ---- Only what passes ------------------------------------------------------------------------------

  /** The event is addressed to the client and public, and passes the filters; only stream events need no details. */
  ghost predicate Passes(e: Event) {
    e.routed && !e.isInternal && e.kindOK && e.matches && (e.isStream || e.enriched)
  }

  ghost predicate Addressed(buffer: seq<Event>) {
    forall e | e in buffer :: e.routed && (e.cursor > 0 ==> Durable(e))
  }

  ghost predicate Filtered(s: State) {
    && ValidLog(s.log)
    && Addressed(s.channel.buffer)
    && forall e | e in s.sent :: Passes(e) && (e.cursor > 0 ==> Durable(e))
  }

  lemma CommitValid(log: seq<Event>, e: Event)
    requires ValidLog(log) && Durable(e) && e.cursor > HighWater(log)
    ensures ValidLog(log + [e])
  {
    assert log != [] ==> forall i | 0 <= i < |log| :: log[i].cursor <= log[|log| - 1].cursor;
  }

  lemma PublishFiltered(s: State, e: Event, full: bool)
    requires Filtered(s) && e in s.log
    ensures Filtered(PublishStep(s, e, full))
  {
    hide Passes, ValidLog;
    assert ValidLog(s.log) ==> Durable(e) by { DurableIn(s.log, e); }
  }

  lemma DurableIn(log: seq<Event>, e: Event)
    ensures ValidLog(log) && e in log ==> Durable(e)
  {
  }

  lemma ReceiveFiltered(s: State)
    requires Filtered(s) && s.channel.buffer != []
    ensures Filtered(DrainStep(s)) && Filtered(LiveStep(s))
  {
    hide ValidLog;
    var e, rest := s.channel.buffer[0], s.channel.buffer[1..];
    assert e in s.channel.buffer;
    forall d | d in rest ensures d in s.channel.buffer {}
  }

  lemma PageFiltered(s: State, limit: nat)
    requires Filtered(s)
    ensures Filtered(PageStep(s, limit))
  {
    var page := ListOutboxEvents(s.log, s.cursor, limit);
    if page.Page? {
      SendableMembers(page.events);
      PageFromLog(s.log, s.cursor, limit, page.events, page.hasMore);
    }
  }

  lemma StepFiltered(s: State, a: Action)
    requires Filtered(s)
    ensures Filtered(Step(s, a))
  {
    assert ValidLog(s.log);
    hide ValidLog, PublishStep, PageStep, DrainStep, LiveStep, Passes;
    if Enabled(s, a) {
      match a
      case Commit(e) => CommitValid(s.log, e);
      case Publish(e, full) => PublishFiltered(s, e, full);
      case NextPage(limit) => PageFiltered(s, limit);
      case DrainEvent => ReceiveFiltered(s);
      case LiveEvent => ReceiveFiltered(s);
      case _ =>
    }
  }

  lemma {:induction false} RunFiltered(s: State, actions: seq<Action>)
    requires Filtered(s)
    ensures Filtered(Run(s, actions))
    decreases |actions|
  {
    hide Filtered, Step;
    if actions != [] {
      StepFiltered(s, actions[0]);
      RunFiltered(Step(s, actions[0]), actions[1..]);
    }
  }

  /** Over every run, whatever the relay does: no internal event, no event for others, and none that a filter
      rejects is ever sent, with a cursor or without; only stream events are sent without their details. */
  lemma SentPasses(s: State, mode: Mode, actions: seq<Action>, e: Event)
    requires Initial(s, mode) && e in Run(s, actions).sent
    ensures e.routed && !e.isInternal && e.kindOK && e.matches && (e.isStream || e.enriched)
    ensures e.cursor > 0 ==> e.enriched
  {
    RunFiltered(s, actions);
  }

  // ---- Nothing that passes is dropped -------------------------------------------------------------------

  /** The event has been sent, or the open stream still holds it; a stream event only once the stream is live. */
  ghost predicate Held(s: State, e: Event) {
    || e in s.sent
    || s.phase == Closed
    || (Subscribed(s) && e in s.channel.buffer && (e.enriched || s.phase == Live))
  }

  lemma HeldReceive(s: State, e: Event)
    requires e.cursor == 0 && Passes(e) && Held(s, e) && s.channel.buffer != []
    ensures s.phase == Draining ==> Held(DrainStep(s), e)
    ensures s.phase == Live ==> Held(LiveStep(s), e)
  {
    var first, rest := s.channel.buffer[0], s.channel.buffer[1..];
    assert s.channel.buffer == [first] + rest;
  }

  lemma HeldStep(s: State, a: Action, e: Event)
    requires e.cursor == 0 && Passes(e) && Held(s, e)
    ensures Held(Step(s, a), e)
  {
    if Enabled(s, a) && (a.DrainEvent? || a.LiveEvent?) {
      HeldReceive(s, e);
    }
    hide ListOutboxEvents, Sendable, Cursors, CursorList, Passes, DrainStep, LiveStep;
  }

  lemma {:induction false} HeldRun(s: State, actions: seq<Action>, e: Event)
    requires e.cursor == 0 && Passes(e) && Held(s, e)
    ensures Held(Run(s, actions), e)
    decreases |actions|
  {
    hide Held, Step;
    if actions != [] {
      HeldStep(s, actions[0], e);
      HeldRun(Step(s, actions[0]), actions[1..], e);
    }
  }

  /** An event without a cursor that is offered to a subscribed stream and passes the filters is not lost: in every
      later state it has been sent, or is still in the stream's channel, or the stream has ended.  A stream event
      without details has to find the stream live. */
  lemma TransientReceived(s: State, e: Event, more: seq<Action>)
    requires s.phase in {Paging, Draining, Live} && s.channel.open && e.cursor == 0
    requires e.routed && !e.isInternal && e.kindOK && e.matches && (e.enriched || (e.isStream && s.phase == Live))
    ensures var t := Run(Step(s, PublishTransient(e)), more);
            e in t.sent || t.phase == Closed || (t.phase in {Paging, Draining, Live} && e in t.channel.buffer)
  {
    assert Step(s, PublishTransient(e)).channel.buffer == s.channel.buffer + [e];
    HeldRun(Step(s, PublishTransient(e)), more, e);
  }

  // ---- Exactly what is sent while live ----------------------------------------------------------------------

  /** What the bus puts into the open channel. */
  ghost function Accepted(s: State, a: Action): seq<Event> {
    if !Enabled(s, a) || !s.channel.open then []
    else if a.Publish? && a.e.routed && !a.full then [a.e]
    else if a.PublishTransient? then [a.e]
    else []
  }

  ghost function Offered(s: State, actions: seq<Action>): seq<Event>
    decreases |actions|
  {
    if actions == [] then [] else Accepted(s, actions[0]) + Offered(Step(s, actions[0]), actions[1..])
  }

  /** Those of the events that a live stream sends. */
  ghost function Selected(events: seq<Event>): seq<Event> {
    if events == [] then []
    else
      var e := events[|events| - 1];
      Selected(events[..|events| - 1])
      + if !e.isInternal && e.kindOK && e.matches && (e.isStream || e.enriched) then [e] else []
  }

  /** The last cursor after these events: that of the last one with a cursor that passes the filters. */
  ghost function MovedTo(last: Option<nat>, events: seq<Event>): Option<nat> {
    if events == [] then last
    else
      var e := events[|events| - 1];
      if e.cursor != 0 && !e.isInternal && e.kindOK && e.matches && !e.isStream then Some(e.cursor)
      else MovedTo(last, events[..|events| - 1])
  }

  /** The run does not end the stream or give up its channel. */
  ghost predicate Uninterrupted(actions: seq<Action>) {
    forall i | 0 <= i < |actions| :: !actions[i].Recover? && !actions[i].Stop?
  }

  ghost predicate Attending(s: State) {
    s.phase == Live && s.marker.Some?
  }

  /** Between two states of a live stream `taken` was received, and `offered` arrived. */
  ghost predicate Received(s: State, t: State, offered: seq<Event>, taken: seq<Event>) {
    && Attending(t)
    && s.channel.buffer + offered == taken + t.channel.buffer
    && t.sent == s.sent + Selected(taken)
    && t.last == MovedTo(s.last, taken)
  }

  lemma OneSelected(e: Event, last: Option<nat>)
    ensures Selected([e]) == if !e.isInternal && e.kindOK && e.matches && (e.isStream || e.enriched) then [e] else []
    ensures MovedTo(last, [e]) == if e.cursor != 0 && !e.isInternal && e.kindOK && e.matches && !e.isStream then Some(e.cursor) else last
  {
    assert [e][..0] == [] && Selected([]) == [];
  }

  lemma LiveReceives(s: State)
    requires Attending(s) && s.channel.buffer != []
    ensures Received(s, Step(s, LiveEvent), [], [s.channel.buffer[0]])
  {
    var e := s.channel.buffer[0];
    OneSelected(e, s.last);
    hide Selected, MovedTo;
    assert s.channel.buffer == [e] + s.channel.buffer[1..];
    assert s.channel.buffer + [] == s.channel.buffer && s.sent + [] == s.sent;
  }

  lemma NothingReceived(s: State, t: State, offered: seq<Event>)
    requires Attending(t) && t.channel.buffer == s.channel.buffer + offered && t.sent == s.sent && t.last == s.last
    ensures Received(s, t, offered, [])
  {
    assert [] + t.channel.buffer == t.channel.buffer && s.sent + [] == s.sent;
  }

  lemma OtherReceives(s: State, a: Action)
    requires Attending(s) && !a.Recover? && !a.Stop? && !(a.LiveEvent? && s.channel.buffer != [])
    ensures var t := Step(s, a);
            && Attending(t) && t.sent == s.sent && t.last == s.last
            && t.channel.buffer == s.channel.buffer + Accepted(s, a)
  {
    assert s.channel.buffer + [] == s.channel.buffer;
    hide SubscribeStep, PageStep, DrainStep, LiveStep;
  }

  lemma StepReceives(s: State, a: Action) returns (taken: seq<Event>)
    requires Attending(s) && !a.Recover? && !a.Stop?
    ensures Received(s, Step(s, a), Accepted(s, a), taken)
  {
    if a.LiveEvent? && s.channel.buffer != [] {
      taken := [s.channel.buffer[0]];
      LiveReceives(s);
    } else {
      taken := [];
      OtherReceives(s, a);
      hide Step, Accepted;
      NothingReceived(s, Step(s, a), Accepted(s, a));
    }
  }

  lemma {:induction false} SelectedJoin(a: seq<Event>, b: seq<Event>, last: Option<nat>)
    ensures Selected(a + b) == Selected(a) + Selected(b)
    ensures MovedTo(last, a + b) == MovedTo(MovedTo(last, a), b)
  {
    if b == [] {
      assert a + b == a && Selected(a) + [] == Selected(a);
    } else {
      var front, e := b[..|b| - 1], b[|b| - 1];
      SelectedJoin(a, front, last);
      assert (a + b)[..|a + b| - 1] == a + front && (a + b)[|a + b| - 1] == e;
    }
  }

  lemma ReceivedJoin(s: State, t: State, u: State, early: seq<Event>, first: seq<Event>, late: seq<Event>, second: seq<Event>)
    requires Received(s, t, early, first) && Received(t, u, late, second)
    ensures Received(s, u, early + late, first + second)
  {
    SelectedJoin(first, second, s.last);
    hide Selected, MovedTo;
    Regroup(s.channel.buffer, early, late);
    Regroup(first, t.channel.buffer, late);
    Regroup(first, second, u.channel.buffer);
    Regroup(s.sent, Selected(first), Selected(second));
  }

  /** Over every uninterrupted run of a live stream: it receives what is buffered and offered in order, and sends
      exactly those of the received events that pass, once each and in this order.  The last cursor is that
      of the last received one that has a cursor and passes the filters. */
  lemma {:induction false} LiveSendsExactly(s: State, actions: seq<Action>) returns (taken: seq<Event>)
    requires s.phase == Live && s.marker.Some? && Uninterrupted(actions)
    ensures Received(s, Run(s, actions), Offered(s, actions), taken)
    decreases |actions|
  {
    if actions == [] {
      taken := [];
      assert s.channel.buffer + [] == s.channel.buffer;
      NothingReceived(s, s, []);
    } else {
      var a, rest := actions[0], actions[1..];
      var first := StepReceives(s, a);
      hide Step, Accepted, Received;
      StillAttending(s, Step(s, a), Accepted(s, a), first);
      var second := LiveSendsExactly(Step(s, a), rest);
      taken := first + second;
      ReceivedJoin(s, Step(s, a), Run(s, actions), Accepted(s, a), first, Offered(Step(s, a), rest), second);
    }
  }

  lemma StillAttending(s: State, t: State, offered: seq<Event>, taken: seq<Event>)
    requires Received(s, t, offered, taken)
    ensures t.phase == Live && t.marker.Some?
  {
  }

  // ---- Slow consumers -----------------------------------------------------------------------------------------

  /** Once its closed channel is drained, a stream that can replay and has seen a cursor pages on from there, remembering
      nothing and sending nothing meanwhile; any other is ended. */
  lemma RecoveryExact(s: State, supported: bool)
    requires s.phase == Draining || (s.phase == Live && s.marker.Some?)
    requires s.channel.buffer == [] && !s.channel.open && !s.snapshot && s.start.Some?
    ensures var t := Step(s, Recover(supported));
            var u := Step(t, Subscribe);
            && t.sent == s.sent && t.last == s.last
            && (supported && s.last.Some? ==>
                  && u.phase == Paging && Some(u.cursor) == s.last && u.seen == {} && u.call == []
                  && u.channel == Channel([], true, s.published, s.published)
                  && u.sent == s.sent && u.last == s.last && u.start == s.start)
            && (!(supported && s.last.Some?) ==> t.phase == Closed)
  {
  }
}
