/** How often an event is sent: once while the relay publishes each event once and no replay call is
    followed by another delivery; more often otherwise (internal/grpc/server.go:7257-7379, 7469-7579). */
module EventRepeats {
  import opened Wrappers
  import opened EventStream
  import opened EventDelivery

  // ---- A relay that publishes each event once ------------------------------------------------------------

  /** The relay never publishes an event again. */
  ghost predicate PublishesOnce(s: State, a: Action) {
    InOrder(s, a) && (a.Publish? && a.e in s.log ==> a.e.cursor > s.published)
  }

  ghost predicate RunOnce(s: State, actions: seq<Action>)
    decreases |actions|
  {
    actions == [] || (PublishesOnce(s, actions[0]) && RunOnce(Step(s, actions[0]), actions[1..]))
  }

  lemma {:induction false} OnceInOrder(s: State, actions: seq<Action>)
    requires RunOnce(s, actions)
    ensures RunInOrder(s, actions)
    decreases |actions|
  {
    hide Step, InOrder;
    if actions != [] {
      OnceInOrder(Step(s, actions[0]), actions[1..]);
    }
  }

  /** The buffered events are in cursor order and published. */
  ghost predicate OrderedBuffer(buffer: seq<Event>, published: nat) {
    && (forall e | e in buffer :: e.cursor <= published)
    && (forall i, j | 0 <= i < j < |buffer| && buffer[i].cursor > 0 && buffer[j].cursor > 0 :: buffer[i].cursor < buffer[j].cursor)
  }

  lemma OrderedPublish(buffer: seq<Event>, published: nat, e: Event)
    requires OrderedBuffer(buffer, published) && e.cursor > published
    ensures OrderedBuffer(buffer + [e], e.cursor) && OrderedBuffer(buffer, e.cursor)
  {
    var more := buffer + [e];
    forall d | d in buffer ensures d.cursor < e.cursor {}
    forall i | 0 <= i < |buffer| ensures more[i] in buffer {
      assert more[i] == buffer[i];
    }
  }

  lemma OrderedTransient(buffer: seq<Event>, published: nat, e: Event)
    requires OrderedBuffer(buffer, published) && e.cursor == 0
    ensures OrderedBuffer(buffer + [e], published)
  {
  }

  lemma OrderedRest(buffer: seq<Event>, published: nat)
    requires OrderedBuffer(buffer, published) && buffer != []
    ensures OrderedBuffer(buffer[1..], published) && buffer[0].cursor <= published
    ensures buffer[0].cursor > 0 ==> forall e | e in buffer[1..] && e.cursor > 0 :: buffer[0].cursor < e.cursor
  {
    assert buffer == [buffer[0]] + buffer[1..];
    assert buffer[0] in buffer;
    forall e | e in buffer[1..] ensures e in buffer {}
    forall e | e in buffer[1..] && e.cursor > 0 && buffer[0].cursor > 0 ensures buffer[0].cursor < e.cursor {
      var i :| 0 <= i < |buffer[1..]| && buffer[1..][i] == e;
      assert buffer[i + 1] == e;
    }
  }

  /** Steps keep the buffer ordered, if the relay publishes once. */
  lemma StepOrdered(s: State, a: Action)
    requires OrderedBuffer(s.channel.buffer, s.published) && PublishesOnce(s, a)
    ensures OrderedBuffer(Step(s, a).channel.buffer, Step(s, a).published)
  {
    if Enabled(s, a) {
      if a.Publish? {
        OrderedPublish(s.channel.buffer, s.published, a.e);
      } else if a.PublishTransient? {
        OrderedTransient(s.channel.buffer, s.published, a.e);
      } else if a.DrainEvent? || a.LiveEvent? {
        OrderedRest(s.channel.buffer, s.published);
      }
    }
    hide OrderedBuffer, InOrder;
  }

  // ---- Once in a replay call -------------------------------------------------------------------------------

  /** What the call has sent was paged, or drained ahead of all that is still buffered. */
  ghost predicate CallAhead(call: seq<nat>, seen: set<nat>, published: nat, buffer: seq<Event>) {
    forall c | c in call :: c in seen || (c <= published && forall e | e in buffer && e.cursor > 0 :: c < e.cursor)
  }

  ghost predicate ValidCall(s: State) {
    && Distinct(s.call)
    && (s.phase == Paging ==>
          (forall c | c in s.call :: c in s.seen) && (forall c | c in s.seen :: c <= s.cursor))
    && (s.phase == Draining ==> CallAhead(s.call, s.seen, s.published, s.channel.buffer))
  }

  lemma PageCursors(events: seq<Event>, low: nat)
    requires Sorted(events) && forall e | e in events :: e.cursor > low
    ensures Distinct(CursorList(Sendable(events)))
    ensures forall c | c in CursorList(Sendable(events)) :: c > low && c in Cursors(events)
    ensures forall c | c in Cursors(events) :: events != [] && c <= events[|events| - 1].cursor
  {
    SendableSorted(events);
    SendableMembers(events);
    hide Sendable;
    var rows := Sendable(events);
    forall c | c in CursorList(rows) ensures c > low && c in Cursors(events) {
      var i :| 0 <= i < |rows| && rows[i].cursor == c;
      assert rows[i] in events;
    }
    forall e | e in events ensures e.cursor <= events[|events| - 1].cursor {
      var i :| 0 <= i < |events| && events[i] == e;
    }
  }

  lemma AppendDistinct(a: seq<nat>, b: seq<nat>, bound: nat)
    requires Distinct(a) && Distinct(b)
    requires (forall c | c in a :: c <= bound) && (forall c | c in b :: c > bound)
    ensures Distinct(a + b)
  {
    forall i | 0 <= i < |a| ensures a[i] <= bound { assert a[i] in a; }
    forall i | 0 <= i < |b| ensures b[i] > bound { assert b[i] in b; }
  }

  lemma PageCalls(s: State, limit: nat)
    requires ValidLog(s.log) && ValidCall(s) && s.phase == Paging && limit > 0
    ensures ValidCall(PageStep(s, limit))
  {
    var page := ListOutboxEvents(s.log, s.cursor, limit);
    if page.Page? {
      PageFromLog(s.log, s.cursor, limit, page.events, page.hasMore);
      hide ListOutboxEvents, ValidLog;
      ConsumeCalls(s, page.events, page.hasMore);
    }
  }

  lemma ConsumeCalls(s: State, events: seq<Event>, hasMore: bool)
    requires ValidCall(s) && s.phase == Paging
    requires Sorted(events) && forall e | e in events :: e.cursor > s.cursor
    ensures ValidCall(ConsumePage(s, events, hasMore))
  {
    PageCursors(events, s.cursor);
    AppendDistinct(s.call, CursorList(Sendable(events)), s.cursor);
    assert events != [] ==> events[|events| - 1] in events;
    hide Sendable, Cursors, CursorList, Sorted, Distinct;
  }

  lemma DistinctMore(s: seq<nat>, c: nat)
    requires Distinct(s) && c !in s
    ensures Distinct(s + [c])
  {
  }

  /** Receiving the front of the buffer, and sending it if it was not paged. */
  lemma CallRest(call: seq<nat>, seen: set<nat>, published: nat, buffer: seq<Event>)
    requires CallAhead(call, seen, published, buffer) && OrderedBuffer(buffer, published) && buffer != []
    ensures CallAhead(call, seen, published, buffer[1..])
    ensures var c := buffer[0].cursor;
            c > 0 && c !in seen ==> c !in call && CallAhead(call + [c], seen, published, buffer[1..])
  {
    OrderedRest(buffer, published);
    assert buffer[0] in buffer;
    forall d | d in buffer[1..] ensures d in buffer {}
    hide OrderedBuffer;
  }

  lemma DrainCalls(s: State)
    requires OrderedBuffer(s.channel.buffer, s.published) && ValidCall(s) && s.phase == Draining && s.channel.buffer != []
    ensures ValidCall(DrainStep(s))
  {
    CallRest(s.call, s.seen, s.published, s.channel.buffer);
    if s.channel.buffer[0].cursor !in s.call {
      DistinctMore(s.call, s.channel.buffer[0].cursor);
    }
    hide OrderedBuffer, Distinct, CallAhead;
  }

  lemma SubscribeCalls(s: State)
    ensures s.phase == Subscribing ==> ValidCall(SubscribeStep(s))
  {
  }

  lemma PublishCalls(s: State, e: Event, full: bool)
    requires ValidCall(s) && e in s.log && PublishesOnce(s, Publish(e, full))
    ensures ValidCall(PublishStep(s, e, full))
  {
    hide Distinct;
  }

  ghost predicate Calling(s: State) {
    ValidCall(s) && OrderedBuffer(s.channel.buffer, s.published)
  }

  lemma StepCalls(s: State, a: Action)
    requires Valid(s) && Calling(s) && PublishesOnce(s, a)
    ensures Calling(Step(s, a))
  {
    StepOrdered(s, a);
    assert Distinct<nat>([]) && ValidLog(s.log);
    hide Valid, SubscribeStep, PageStep, DrainStep, PublishStep, Distinct, ValidLog, PublishesOnce, OrderedBuffer;
    if Enabled(s, a) {
      match a
      case Subscribe => SubscribeCalls(s);
      case Publish(e, full) => PublishCalls(s, e, full);
      case NextPage(limit) => PageCalls(s, limit);
      case DrainEvent => DrainCalls(s);
      case _ =>
    }
  }

  lemma {:induction false} RunCalls(s: State, actions: seq<Action>)
    requires Valid(s) && Calling(s) && RunOnce(s, actions)
    ensures Valid(Run(s, actions)) && Calling(Run(s, actions))
    decreases |actions|
  {
    hide Valid, Step, InOrder, Calling;
    if actions != [] {
      StepKeeps(s, actions[0]);
      StepCalls(s, actions[0]);
      RunCalls(Step(s, actions[0]), actions[1..]);
    }
  }

  /** While the relay publishes each event once, a replay call sends each cursor at most once. */
  lemma OncePerCall(s: State, mode: Mode, actions: seq<Action>)
    requires Initial(s, mode) && RunOnce(s, actions)
    ensures Distinct(Run(s, actions).call)
  {
    InitialValid(s, mode);
    RunCalls(s, actions);
  }

  // ---- A relay that restarts ----------------------------------------------------------------------------

  /** A replay of an empty log. */
  const Start0 :=
    State([], 0, Subscribing, Channel([], false, 0, 0), false, Some(0), Some(0), 0, {}, None, [], [], None)
  const Again1 := Start0.(phase := Paging, channel := Channel([], true, 0, 0))
  const Again2 := Again1.(phase := Draining)
  const Again3 := Again2.(log := [E1])
  const Again4 := Again3.(published := 1, channel := Channel([E1], true, 0, 1))
  const Again5 := Again4.(channel := Channel([E1, E1], true, 0, 1))
  const Again6 := Again5.(channel := Channel([E1], true, 0, 1), last := Some(1), sent := [E1], call := [1])
  const Again7 := Again6.(channel := Channel([], true, 0, 1), sent := [E1, E1], call := [1, 1])

  const AgainRun: seq<Action> :=
    [Subscribe, NextPage(1000), Commit(E1), Publish(E1, false), Publish(E1, false), DrainEvent, DrainEvent]

  lemma AgainPaging()
    ensures Step(Start0, Subscribe) == Again1 && Step(Again1, NextPage(1000)) == Again2 && Step(Again2, Commit(E1)) == Again3
  {
    assert ListOutboxEvents([], 0, 1000) == Page([], false);
    hide ListOutboxEvents;
    EmptyPage(Again1, 1000);
  }

  lemma AgainPublishing()
    ensures Step(Again3, Publish(E1, false)) == Again4 && InOrder(Again3, Publish(E1, false))
    ensures Step(Again4, Publish(E1, false)) == Again5 && InOrder(Again4, Publish(E1, false))
  {
    assert E1 in [E1] && [] + [E1] == [E1] && [E1] + [E1] == [E1, E1];
  }

  lemma AgainDraining()
    ensures Step(Again5, DrainEvent) == Again6 && Step(Again6, DrainEvent) == Again7
  {
    assert [E1, E1][1..] == [E1] && [E1][1..] == [];
    assert [] + [E1] == [E1] && [E1] + [E1] == [E1, E1] && [] + [1] == [1] && [1] + [1] == [1, 1];
  }

  /** A restarted relay publishes an event again; if the replay call did not page it, the call sends it
      twice. */
  lemma RepeatedInCall()
    ensures Initial(Start0, AfterCursor(0)) && RunInOrder(Start0, AgainRun)
    ensures Run(Start0, AgainRun).sent == [E1, E1] && !Distinct(Run(Start0, AgainRun).call)
  {
    AgainPaging();
    AgainPublishing();
    AgainDraining();
    AgainInOrder();
    assert Again7.sent == [E1, E1] && Again7.call == [1, 1];
    assert [1, 1][0] == [1, 1][1];
    assert !Distinct([1, 1]);
    hide *;
    AgainRunIs();
    var a6: seq<Action> := [DrainEvent] + [];
    var a5: seq<Action> := [DrainEvent] + a6;
    var a4: seq<Action> := [Publish(E1, false)] + a5;
    var a3: seq<Action> := [Publish(E1, false)] + a4;
    var a2: seq<Action> := [Commit(E1)] + a3;
    var a1: seq<Action> := [NextPage(1000)] + a2;
    RunFirst(Again6, DrainEvent, []);
    RunFirst(Again5, DrainEvent, a6);
    RunFirst(Again4, Publish(E1, false), a5);
    RunFirst(Again3, Publish(E1, false), a4);
    RunFirst(Again2, Commit(E1), a3);
    RunFirst(Again1, NextPage(1000), a2);
    RunFirst(Start0, Subscribe, a1);
    EmptyRun(Again7);
  }

  lemma EmptyRun(s: State)
    ensures Run(s, []) == s && RunInOrder(s, [])
  {
  }

  lemma AgainRunIs()
    ensures AgainRun == [Subscribe] + ([NextPage(1000)] + ([Commit(E1)] + ([Publish(E1, false)] + ([Publish(E1, false)]
                        + ([DrainEvent] + ([DrainEvent] + []))))))
  {
  }

  lemma AgainInOrder()
    ensures InOrder(Start0, Subscribe) && InOrder(Again1, NextPage(1000)) && InOrder(Again2, Commit(E1))
    ensures InOrder(Again5, DrainEvent) && InOrder(Again6, DrainEvent)
  {
  }

  // ---- After the switch to live delivery ---------------------------------------------------------------

  ghost predicate WithoutRecovery(actions: seq<Action>) {
    forall i | 0 <= i < |actions| :: !actions[i].Recover?
  }

  /** Of the events sent from index `n` on, one was sent before. */
  ghost predicate SentAgain(n: nat, sent: seq<Event>) {
    exists i, j :: 0 <= i < j < |sent| && n <= j && sent[j].cursor > 0 && sent[i].cursor == sent[j].cursor
  }

  /** Nothing has been sent again since `n` events were sent, and nothing that is buffered or still to be
      published was sent. */
  ghost predicate Unrepeated(n: nat, s: State) {
    && s.phase in {Live, Closed}
    && OrderedBuffer(s.channel.buffer, s.published)
    && (forall e | e in s.sent :: e.cursor <= s.published)
    && Behind(s.sent, s.channel.buffer)
    && !SentAgain(n, s.sent)
  }

  lemma SentOnceMore(n: nat, sent: seq<Event>, e: Event)
    requires !SentAgain(n, sent) && (e.cursor > 0 ==> forall d | d in sent :: d.cursor < e.cursor)
    ensures !SentAgain(n, sent + [e])
  {
    var more := sent + [e];
    forall i, j | 0 <= i < j < |more| && n <= j && more[j].cursor > 0 ensures more[i].cursor != more[j].cursor {
      assert more[i] == sent[i] && sent[i] in sent;
      assert j < |sent| ==> more[j] == sent[j];
    }
  }

  /** What was sent has lower cursors than what is buffered. */
  ghost predicate Behind(sent: seq<Event>, buffer: seq<Event>) {
    forall e, d | e in sent && d in buffer && d.cursor > 0 :: e.cursor < d.cursor
  }

  lemma BehindRest(sent: seq<Event>, buffer: seq<Event>, published: nat)
    requires Behind(sent, buffer) && OrderedBuffer(buffer, published) && buffer != []
    ensures Behind(sent, buffer[1..]) && Behind(sent + [buffer[0]], buffer[1..])
    ensures buffer[0].cursor > 0 ==> forall d | d in sent :: d.cursor < buffer[0].cursor
  {
    OrderedRest(buffer, published);
    assert buffer[0] in buffer;
    forall d | d in buffer[1..] ensures d in buffer {}
  }

  lemma LiveUnrepeated(n: nat, s: State)
    requires Unrepeated(n, s) && s.channel.buffer != []
    ensures Unrepeated(n, LiveStep(s).(phase := s.phase))
  {
    var e, t := s.channel.buffer[0], LiveStep(s);
    OrderedRest(s.channel.buffer, s.published);
    BehindRest(s.sent, s.channel.buffer, s.published);
    SentOnceMore(n, s.sent, e);
    assert t.sent == s.sent || t.sent == s.sent + [e];
    assert t.channel.buffer == s.channel.buffer[1..] && t.published == s.published;
    hide OrderedBuffer, SentAgain, Behind, LiveStep;
  }

  lemma BehindPublish(s: State, e: Event)
    requires Behind(s.sent, s.channel.buffer) && forall d | d in s.sent :: d.cursor <= s.published
    ensures e.cursor > s.published || e.cursor == 0 ==> Behind(s.sent, s.channel.buffer + [e])
  {
  }

  lemma PublishUnrepeated(n: nat, s: State, e: Event, full: bool)
    requires Unrepeated(n, s) && e in s.log && e.cursor > s.published
    ensures Unrepeated(n, PublishStep(s, e, full))
  {
    OrderedPublish(s.channel.buffer, s.published, e);
    BehindPublish(s, e);
    hide OrderedBuffer, SentAgain, Behind;
  }

  lemma StepUnrepeated(n: nat, s: State, a: Action)
    requires Unrepeated(n, s) && PublishesOnce(s, a) && !a.Recover?
    ensures Unrepeated(n, Step(s, a))
  {
    if Enabled(s, a) && a.Publish? {
      PublishUnrepeated(n, s, a.e, a.full);
    } else if Enabled(s, a) && a.LiveEvent? {
      LiveUnrepeated(n, s);
    } else if Enabled(s, a) && a.PublishTransient? {
      OrderedTransient(s.channel.buffer, s.published, a.e);
      BehindPublish(s, a.e);
    }
    hide OrderedBuffer, SentAgain, Behind, PublishStep, LiveStep, InOrder;
  }

  lemma {:induction false} RunUnrepeated(n: nat, s: State, actions: seq<Action>)
    requires Unrepeated(n, s) && RunOnce(s, actions) && WithoutRecovery(actions)
    ensures Unrepeated(n, Run(s, actions))
    decreases |actions|
  {
    if actions != [] {
      assert !actions[0].Recover? && WithoutRecovery(actions[1..]);
      hide Unrepeated, Step, PublishesOnce, WithoutRecovery;
      StepUnrepeated(n, s, actions[0]);
      RunUnrepeated(n, Step(s, actions[0]), actions[1..]);
    }
  }

  /** `more` sends `e`, at last, after what was sent before. */
  ghost predicate Reaches(s: State, more: seq<Action>, e: Event) {
    && RunOnce(s, more) && WithoutRecovery(more)
    && s.sent <= Run(s, more).sent && |s.sent| < |Run(s, more).sent|
    && Run(s, more).sent[|Run(s, more).sent| - 1] == e
  }

  ghost predicate CanSend(s: State, e: Event) {
    exists more :: Reaches(s, more, e)
  }

  lemma OnceFirst(s: State, a: Action, more: seq<Action>)
    ensures Run(s, [a] + more) == Run(Step(s, a), more)
    ensures RunOnce(s, [a] + more) <==> PublishesOnce(s, a) && RunOnce(Step(s, a), more)
    ensures WithoutRecovery([a] + more) <==> !a.Recover? && WithoutRecovery(more)
  {
    hide Step, PublishesOnce;
    assert ([a] + more)[0] == a && ([a] + more)[1..] == more;
    if WithoutRecovery([a] + more) {
      forall i | 0 <= i < |more| ensures !more[i].Recover? {
        assert ([a] + more)[i + 1] == more[i];
      }
    }
  }

  /** A step that sends nothing, or only adds to what is sent. */
  lemma CanSendAfter(s: State, a: Action, e: Event)
    requires PublishesOnce(s, a) && !a.Recover? && s.sent <= Step(s, a).sent && CanSend(Step(s, a), e)
    ensures CanSend(s, e)
  {
    var more :| Reaches(Step(s, a), more, e);
    hide Step, PublishesOnce;
    OnceFirst(s, a, more);
    assert Reaches(s, [a] + more, e);
  }

  lemma CanSendNow(s: State, a: Action, e: Event)
    requires PublishesOnce(s, a) && !a.Recover? && Step(s, a).sent == s.sent + [e]
    ensures CanSend(s, e)
  {
    hide Step, PublishesOnce;
    OnceFirst(s, a, []);
    assert [a] + [] == [a];
    assert Reaches(s, [a], e);
  }

  /** The log is published up to its event at `k`. */
  ghost predicate PublishedTo(s: State, k: nat) {
    && (forall i | 0 <= i < |s.log| :: i < k <==> s.log[i].cursor <= s.published)
    && ValidLog(s.log) && s.phase == Live && s.marker.Some? && s.channel.open && s.channel.buffer == []
  }

  lemma PublishNext(s: State, k: nat)
    requires PublishedTo(s, k) && k < |s.log|
    ensures var a := Publish(s.log[k], false);
            var t := Step(s, a);
            && PublishesOnce(s, a) && t.sent == s.sent && t.log == s.log
            && (!s.log[k].routed ==> PublishedTo(t, k + 1))
            && (s.log[k].routed ==>
                  var u := Step(t, LiveEvent);
                  && Enabled(t, LiveEvent) && PublishedTo(u, k + 1) && u.log == s.log
                  && (u.sent == s.sent || u.sent == s.sent + [s.log[k]])
                  && (Wanted(s.log[k]) ==> u.sent == s.sent + [s.log[k]]))
  {
    var e := s.log[k];
    assert e in s.log && Durable(e);
    assert [] + [e] == [e] && [e][1..] == [];
    assert e.cursor > s.published;
    forall i | 0 <= i < |s.log| ensures i < k + 1 <==> s.log[i].cursor <= e.cursor {
    }
  }

  /** Publishing on, and taking each event live, sends every wanted event that is not published yet. */
  lemma {:induction false} PublishUpTo(s: State, k: nat, m: nat)
    requires PublishedTo(s, k) && k <= m < |s.log| && Wanted(s.log[m])
    ensures CanSend(s, s.log[m])
    decreases m - k
  {
    var e, a := s.log[k], Publish(s.log[k], false);
    var t := Step(s, a);
    PublishNext(s, k);
    var u := if e.routed then Step(t, LiveEvent) else t;
    if k < m {
      PublishUpTo(u, k + 1, m);
    }
    hide Step, InOrder, PublishedTo, Reaches, CanSend, RunOnce;
    if e.routed {
      OnceQuiet(t, LiveEvent);
      if k < m {
        CanSendAfter(t, LiveEvent, s.log[m]);
      } else {
        CanSendNow(t, LiveEvent, s.log[m]);
      }
    }
    CanSendAfter(s, a, s.log[m]);
  }

  lemma OnceQuiet(s: State, a: Action)
    ensures !a.Publish? ==> PublishesOnce(s, a)
  {
  }

  lemma {:induction false} FirstUnpublished(log: seq<Event>, published: nat) returns (k: nat)
    requires Sorted(log)
    ensures k <= |log| && forall i | 0 <= i < |log| :: i < k <==> log[i].cursor <= published
  {
    k := 0;
    while k < |log| && log[k].cursor <= published
      invariant k <= |log| && forall i | 0 <= i < k :: log[i].cursor <= published
    {
      k := k + 1;
    }
  }

  lemma SendableAgain(s: State, e: Event)
    requires ValidLog(s.log) && s.phase == Live && s.marker.None? && s.channel.open && s.channel.buffer == []
    requires e in s.log && Wanted(e) && e.cursor > s.published
    ensures CanSend(s, e)
  {
    var t := Step(s, Mark);
    var k := FirstUnpublished(s.log, s.published);
    var m: nat :| m < |s.log| && s.log[m] == e;
    assert k <= m;
    assert PublishedTo(t, k) && t.sent == s.sent && t.log == s.log;
    hide Step, InOrder, PublishedTo, Reaches, CanSend, RunOnce;
    PublishUpTo(t, k, m);
    OnceQuiet(s, Mark);
    CanSendAfter(s, Mark, e);
  }

  /** Some later run, without a recovery, sends a durable event again. */
  ghost predicate Repeats(t: State) {
    exists more :: RunOnce(t, more) && WithoutRecovery(more) && SentAgain(|t.sent|, Run(t, more).sent)
  }

  /** At the switch to live delivery, with a relay that publishes each event once: the stream can come to
      send a durable event again exactly if it has sent one that the relay has not published yet. */
  lemma SwitchRepeats(first: State, mode: Mode, actions: seq<Action>)
    requires Initial(first, mode) && RunOnce(first, actions) && Enabled(Run(first, actions), DrainDone)
    ensures var s := Run(first, actions);
            Repeats(Step(s, DrainDone)) <==> exists e :: e in s.sent && e.cursor > s.published
  {
    var s := Run(first, actions);
    var t := Step(s, DrainDone);
    OnceInOrder(first, actions);
    InitialValid(first, mode);
    RunSendsWanted(first, actions);
    assert t == s.(phase := Live, resume := None, marker := None) && ValidLog(s.log);
    if e :| e in s.sent && e.cursor > s.published {
      SendableAgain(t, e);
      var more :| Reaches(t, more, e);
      ReachedAgain(t, more, e);
    } else {
      NothingRepeats(t);
    }
  }

  lemma ReachedAgain(t: State, more: seq<Action>, e: Event)
    requires Reaches(t, more, e) && e in t.sent && e.cursor > 0
    ensures Repeats(t)
  {
    hide RunOnce, Run;
    var u := Run(t, more);
    var i :| 0 <= i < |t.sent| && t.sent[i] == e;
    assert u.sent[i] == e;
    assert SentAgain(|t.sent|, u.sent);
  }

  lemma NothingRepeats(t: State)
    requires t.phase == Live && t.channel.buffer == [] && forall e | e in t.sent :: e.cursor <= t.published
    ensures !Repeats(t)
  {
    assert OrderedBuffer([], t.published) && !SentAgain(|t.sent|, t.sent);
    forall more | RunOnce(t, more) && WithoutRecovery(more) ensures !SentAgain(|t.sent|, Run(t, more).sent) {
      RunUnrepeated(|t.sent|, t, more);
    }
  }

  // ---- One event twice -----------------------------------------------------------------------------------

  /** A replay of a log of one wanted event that the relay has yet to publish. */
  const OneEvent := Start0.(log := [E1])
  const Asked := OneEvent.(phase := Paging, channel := Channel([], true, 0, 0))
  const Paged := Asked.(phase := Draining, cursor := 1, seen := {1}, last := Some(1), sent := [E1], call := [1])

  lemma FirstPage(e: Event, limit: nat)
    requires e.cursor > 0 && Wanted(e) && limit > 0
    ensures ListOutboxEvents([e], 0, limit) == Page([e], false)
    ensures Sendable([e]) == [e] && Cursors([e]) == {e.cursor} && CursorList([e]) == [e.cursor]
  {
    assert [e][1..] == [] && [e][..0] == [];
    assert After([e], 0) == [e];
  }

  lemma RepeatedPaging()
    ensures Step(OneEvent, Subscribe) == Asked && Step(Asked, NextPage(1000)) == Paged
  {
    FirstPage(E1, 1000);
    hide ListOutboxEvents, Sendable, Cursors, CursorList;
    assert [] + [E1] == [E1] && [] + [1] == [1] && {} + {1} == {1};
    assert ConsumePage(Asked, [E1], false) == Paged;
  }

  /** Delivery is at least once: an event that was paged before it is published can be sent again. */
  lemma RepeatedWhenLive()
    ensures Initial(OneEvent, AfterCursor(0)) && RunOnce(OneEvent, [Subscribe, NextPage(1000)])
    ensures var s := Run(OneEvent, [Subscribe, NextPage(1000)]);
            Enabled(s, DrainDone) && s.sent == [E1] && Repeats(Step(s, DrainDone))
  {
    RepeatedPaging();
    OnceQuiet(OneEvent, Subscribe);
    OnceQuiet(Asked, NextPage(1000));
    OnceFirst(Asked, NextPage(1000), []);
    OnceFirst(OneEvent, Subscribe, [NextPage(1000)]);
    assert [NextPage(1000)] + [] == [NextPage(1000)] && [Subscribe] + [NextPage(1000)] == [Subscribe, NextPage(1000)];
    assert Run(OneEvent, [Subscribe, NextPage(1000)]) == Paged && E1 in Paged.sent && E1.cursor > Paged.published;
    SwitchRepeats(OneEvent, AfterCursor(0), [Subscribe, NextPage(1000)]);
  }
}
