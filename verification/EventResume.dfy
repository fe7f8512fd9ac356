/** From which cursors a client may resume on a new stream: those of the events it has received, and
    the one that is sent with the marker "live" (internal/grpc/server.go:7257-7298). */
module EventResume {
  import opened Wrappers
  import opened EventStream
  import opened EventDelivery

  // ---- Every received cursor is safe ---------------------------------------------------------------

  /** When the event at `i` was sent, everything owed up to it had been. */
  ghost predicate CoveredAt(s: State, i: nat)
    requires i < |s.sent| && s.start.Some?
  {
    s.sent[i].cursor > 0 ==> Covered(s.log, s.sent[..i + 1], s.start.value, s.sent[i].cursor)
  }

  ghost predicate PrefixCovered(s: State) {
    s.sent != [] ==> s.start.Some? && forall i | 0 <= i < |s.sent| :: CoveredAt(s, i)
  }

  ghost predicate Sound(s: State) {
    Valid(s) && SentWanted(s) && PrefixCovered(s)
  }

  lemma PrefixExtended(s: State, t: State, n: nat)
    requires PrefixCovered(s) && s.log == t.log && (s.sent != [] ==> s.start == t.start) && s.sent <= t.sent && n == |s.sent|
    requires t.sent != [] ==> t.start.Some? && forall i | n <= i < |t.sent| :: CoveredAt(t, i)
    ensures PrefixCovered(t)
  {
    forall i | 0 <= i < n && t.start.Some? ensures CoveredAt(t, i) {
      assert CoveredAt(s, i) && t.sent[..i + 1] == s.sent[..i + 1];
    }
  }

  lemma CommitPrefix(s: State, e: Event)
    requires Sound(s) && Durable(e) && e.cursor > HighWater(s.log)
    ensures PrefixCovered(s.(log := s.log + [e]))
  {
    var t := s.(log := s.log + [e]);
    forall i | 0 <= i < |s.sent| && t.start.Some? ensures CoveredAt(t, i) {
      assert CoveredAt(s, i) && s.sent[i] in s.sent;
      if s.sent[i].cursor > 0 {
        assert s.sent[i].cursor < e.cursor;
      }
    }
  }

  lemma SortedPrefix(rows: seq<Event>, k: nat, d: Event)
    requires Sorted(rows) && k < |rows| && d in rows && d.cursor <= rows[k].cursor
    ensures d in rows[..k + 1]
  {
    var i :| 0 <= i < |rows| && rows[i] == d;
    assert i <= k && rows[..k + 1][i] == d;
  }

  lemma PageHas(log: seq<Event>, cursor: nat, limit: nat, events: seq<Event>, hasMore: bool, x: Event, d: Event)
    requires ValidLog(log) && limit > 0 && ListOutboxEvents(log, cursor, limit) == Page(events, hasMore)
    requires x in events && d in log && Wanted(d) && cursor < d.cursor <= x.cursor
    ensures d in Sendable(events)
  {
    var rows := After(log, cursor);
    AfterMembers(log, cursor);
    SendableOf(log, cursor, rows, limit);
    PageEnds(rows, limit, x);
    hide Sendable, After, Sorted, HasCursor;
  }

  lemma PageEnds(rows: seq<Event>, limit: nat, x: Event)
    requires Sorted(rows)
    ensures |rows| > limit > 0 && x in rows[..limit] ==> x.cursor <= rows[limit - 1].cursor
  {
    if |rows| > limit > 0 && x in rows[..limit] {
      var j :| 0 <= j < limit && rows[..limit][j] == x;
      assert rows[j] == x;
    }
  }

  lemma PageSorted(log: seq<Event>, cursor: nat, limit: nat, events: seq<Event>, hasMore: bool)
    requires ValidLog(log) && ListOutboxEvents(log, cursor, limit) == Page(events, hasMore)
    ensures Sorted(Sendable(events)) && forall e :: e in Sendable(events) ==> e in events
  {
    AfterMembers(log, cursor);
    SendableSorted(events);
    SendableMembers(events);
  }

  /** The events of a page are sent in order, and none that is owed is left out. */
  lemma PageRowCovered(log: seq<Event>, sent: seq<Event>, start: nat, cursor: nat, limit: nat, events: seq<Event>, hasMore: bool, k: nat)
    requires ValidLog(log) && Covered(log, sent, start, cursor) && limit > 0
    requires ListOutboxEvents(log, cursor, limit) == Page(events, hasMore) && k < |Sendable(events)|
    ensures Covered(log, sent + Sendable(events)[..k + 1], start, Sendable(events)[k].cursor)
  {
    var rows, x := Sendable(events), Sendable(events)[k];
    PageSorted(log, cursor, limit, events, hasMore);
    assert x in rows;
    hide Sendable, ListOutboxEvents, Sorted, ValidLog;
    forall d | d in log && Wanted(d) && start < d.cursor <= x.cursor ensures d in sent + rows[..k + 1] {
      if d.cursor > cursor {
        PageHas(log, cursor, limit, events, hasMore, x, d);
        SortedPrefix(rows, k, d);
      }
    }
  }

  lemma RowsPrefix(s: State, t: State, rows: seq<Event>)
    requires PrefixCovered(s) && t.log == s.log && t.start == s.start && s.start.Some? && t.sent == s.sent + rows
    requires forall k | 0 <= k < |rows| :: Covered(s.log, s.sent + rows[..k + 1], s.start.value, rows[k].cursor)
    ensures PrefixCovered(t)
  {
    hide Covered;
    var n := |s.sent|;
    forall i | n <= i < |t.sent| ensures CoveredAt(t, i) {
      assert t.sent[..i + 1] == s.sent + rows[..i - n + 1] && t.sent[i] == rows[i - n];
    }
    PrefixExtended(s, t, n);
  }

  lemma PagePrefix(s: State, limit: nat)
    requires Sound(s) && PrefixCovered(s) && s.phase == Paging && limit > 0
    ensures PrefixCovered(PageStep(s, limit))
  {
    var t, page := PageStep(s, limit), ListOutboxEvents(s.log, s.cursor, limit);
    assert Covered(s.log, s.sent, s.start.value, s.cursor) && ValidLog(s.log) && s.start.Some?;
    if page.Page? {
      var rows := Sendable(page.events);
      assert t.sent == s.sent + rows && t.start == s.start && t.log == s.log;
      hide *;
      forall k | 0 <= k < |rows| ensures Covered(s.log, s.sent + rows[..k + 1], s.start.value, rows[k].cursor) {
        PageRowCovered(s.log, s.sent, s.start.value, s.cursor, limit, page.events, page.hasMore, k);
      }
      RowsPrefix(s, t, rows);
    } else {
      PrefixExtended(s, t, |s.sent|);
    }
  }

  lemma ReceivePrefix(s: State, t: State)
    requires Sound(s) && s.phase in {Draining, Live} && s.channel.buffer != []
    requires t == DrainStep(s) || t == LiveStep(s)
    ensures PrefixCovered(t)
  {
    var e, n := s.channel.buffer[0], |s.sent|;
    assert e in s.channel.buffer;
    assert t.sent == s.sent || t.sent == s.sent + [e];
    if t.sent == s.sent + [e] {
      FrontSettles(s, t.sent);
      assert t.sent[..n + 1] == t.sent;
    }
    PrefixExtended(s, t, n);
  }

  lemma StepSound(s: State, a: Action)
    requires Sound(s) && InOrder(s, a)
    ensures Sound(Step(s, a))
  {
    StepKeeps(s, a);
    StepSendsWanted(s, a);
    SilentPrefix(s, a);
    assert PrefixCovered(s);
    hide Valid, SentWanted, PrefixCovered, PageStep, DrainStep, LiveStep, PublishStep, SubscribeStep;
    if Enabled(s, a) {
      match a
      case Commit(e) => CommitPrefix(s, e);
      case NextPage(limit) => PagePrefix(s, limit);
      case DrainEvent => ReceivePrefix(s, DrainStep(s));
      case LiveEvent => ReceivePrefix(s, LiveStep(s));
      case _ =>
    }
  }

  /** The other steps send nothing and commit nothing. */
  lemma SilentPrefix(s: State, a: Action)
    requires Sound(s)
    ensures !a.Commit? && !a.NextPage? && !a.DrainEvent? && !a.LiveEvent? ==> PrefixCovered(Step(s, a))
  {
    if !a.Commit? && !a.NextPage? && !a.DrainEvent? && !a.LiveEvent? {
      SilentStep(s, a);
      PrefixExtended(s, Step(s, a), |s.sent|);
    }
  }

  lemma SilentStep(s: State, a: Action)
    requires Valid(s) && PrefixCovered(s) && !a.Commit? && !a.NextPage? && !a.DrainEvent? && !a.LiveEvent?
    ensures var t := Step(s, a); t.log == s.log && t.sent == s.sent && (s.sent != [] ==> t.start == s.start)
  {
    hide Settled, ValidChannel, SeenSent, ValidLog, InLog, CoveredAt;
  }

  lemma {:induction false} RunSound(s: State, actions: seq<Action>)
    requires Sound(s) && RunInOrder(s, actions)
    ensures Sound(Run(s, actions))
    decreases |actions|
  {
    hide Sound, Step, InOrder;
    if actions != [] {
      StepSound(s, actions[0]);
      RunSound(Step(s, actions[0]), actions[1..]);
    }
  }

  lemma InitialSound(s: State, mode: Mode)
    requires Initial(s, mode)
    ensures Sound(s)
  {
    InitialValid(s, mode);
  }

  /** Whichever received event a client stops at, it has by then received everything owed up to it. */
  lemma ReceivedIsCovered(s: State, mode: Mode, actions: seq<Action>, i: nat, e: Event)
    requires Initial(s, mode) && RunInOrder(s, actions) && i < |Run(s, actions).sent|
    ensures var t := Run(s, actions);
            && t.start.Some?
            && (e in t.log && Wanted(e) && t.start.value < e.cursor <= t.sent[i].cursor ==> e in t.sent[..i + 1])
  {
    InitialSound(s, mode);
    RunSound(s, actions);
    var t := Run(s, actions);
    assert CoveredAt(t, i);
  }

  // ---- The cursor of the marker "live" -----------------------------------------------------------------

  /** A client that left the stream `t` opens the stream `second`, some time later, after the cursor `m`. */
  ghost predicate Resumes(t: State, m: nat, second: State, more: seq<Action>) {
    Initial(second, AfterCursor(m)) && RunInOrder(second, more) && t.log <= second.log
  }

  ghost predicate IsCaughtUp(u: State) {
    u.phase == Live && u.channel.open && u.channel.buffer == []
  }

  /** The second stream has come past the event. */
  ghost predicate Passed(u: State, e: Event) {
    (u.last.Some? && e.cursor <= u.last.value) || (IsCaughtUp(u) && e.cursor <= u.published)
  }

  /** The client has received every event that it wants after the start and that the second stream has passed. */
  ghost predicate NothingLost(t: State, u: State)
    requires t.start.Some?
  {
    forall e | e in u.log && Wanted(e) && t.start.value < e.cursor && Passed(u, e) :: e in t.sent || e in u.sent
  }

  lemma LogStep(s: State, a: Action)
    ensures s.log <= Step(s, a).log
  {
  }

  lemma {:induction false} LogGrows(s: State, actions: seq<Action>)
    ensures s.log <= Run(s, actions).log
    decreases |actions|
  {
    if actions != [] {
      LogStep(s, actions[0]);
      hide Step;
      LogGrows(Step(s, actions[0]), actions[1..]);
    }
  }

  lemma ResumeComplete(t: State, m: nat, second: State, more: seq<Action>, e: Event)
    requires t.start.Some? && ValidLog(t.log) && InLog(t.log, m) && Covered(t.log, t.sent, t.start.value, m)
    requires Resumes(t, m, second, more)
    requires e in Run(second, more).log && Wanted(e) && t.start.value < e.cursor && Passed(Run(second, more), e)
    ensures e in t.sent || e in Run(second, more).sent
  {
    var u := Run(second, more);
    NoGap(second, AfterCursor(m), more, e);
    CaughtUp(second, AfterCursor(m), more, e);
    StartKept(second, more);
    InitialValid(second, AfterCursor(m));
    RunKeeps(second, more);
    LogGrows(second, more);
    if e.cursor <= m && e !in t.log {
      assert Valid(u);
      LaterIsLater(t.log, u.log, e, m);
    }
  }

  /** A stream that is opened after the last cursor of the log, when all of it is published. */
  function Quiet(log: seq<Event>, m: nat): State {
    State(log, m, Subscribing, Channel([], false, 0, 0), false, Some(m), Some(m), 0, {}, None, [], [], None)
  }

  const QuietRun: seq<Action> := [Subscribe, NextPage(1), DrainDone]

  lemma NothingAfter(log: seq<Event>)
    requires ValidLog(log)
    ensures After(log, HighWater(log)) == []
    ensures HighWater(log) == 0 || HasCursor(log, HighWater(log))
  {
    var rows := After(log, HighWater(log));
    assert rows != [] ==> rows[0] in rows;
    AfterMembers(log, HighWater(log));
  }

  lemma QuietSteps(log: seq<Event>)
    requires ValidLog(log)
    ensures var m := HighWater(log);
            var s0 := Quiet(log, m);
            var s1 := s0.(phase := Paging, channel := Channel([], true, m, m), cursor := m);
            var s2 := s1.(phase := Draining);
            && Initial(s0, AfterCursor(m)) && Step(s0, Subscribe) == s1 && Step(s1, NextPage(1)) == s2
            && Step(s2, DrainDone) == s2.(phase := Live, resume := None)
  {
    var m := HighWater(log);
    HighWaterIn(log);
    NothingAfter(log);
    assert ListOutboxEvents(log, m, 1) == Page([], false);
    hide After, PageStep, InLog, ValidLog, HighWater, HasCursor, ListOutboxEvents;
    EmptyPage(Quiet(log, m).(phase := Paging, channel := Channel([], true, m, m), cursor := m), 1);
  }

  /** Three steps without a publication. */
  lemma ThreeSteps(s: State, a: Action, b: Action, c: Action)
    requires !a.Publish? && !b.Publish? && !c.Publish?
    ensures Run(s, [a, b, c]) == Step(Step(Step(s, a), b), c) && RunInOrder(s, [a, b, c])
  {
    hide Step;
    RunFirst(Step(Step(s, a), b), c, []);
    RunFirst(Step(s, a), b, [c]);
    RunFirst(s, a, [b, c]);
    assert [c] + [] == [c] && [b] + [c] == [b, c] && [a] + [b, c] == [a, b, c];
  }

  lemma QuietStream(log: seq<Event>)
    requires ValidLog(log)
    ensures var m := HighWater(log);
            var u := Run(Quiet(log, m), QuietRun);
            && Initial(Quiet(log, m), AfterCursor(m)) && RunInOrder(Quiet(log, m), QuietRun)
            && u.log == log && u.published == m && IsCaughtUp(u) && u.sent == []
  {
    QuietSteps(log);
    ThreeSteps(Quiet(log, HighWater(log)), Subscribe, NextPage(1), DrainDone);
    hide Step, Run, RunInOrder, HighWater, Initial;
  }

  /** A client may resume from the cursor of the marker "live" without losing anything exactly if all
      that it wants up to that cursor has been sent before the marker. */
  lemma MarkerResume(first: State, mode: Mode, actions: seq<Action>)
    requires Initial(first, mode) && RunInOrder(first, actions) && Enabled(Run(first, actions), Mark)
    ensures var s := Run(first, actions);
            var t, m := Step(s, Mark), HighWater(s.log);
            && t.marker == Some(m) && t.sent == s.sent && t.start.Some?
            && ((forall second, more | Resumes(t, m, second, more) :: NothingLost(t, Run(second, more))) <==>
                Covered(s.log, s.sent, s.start.value, m))
  {
    var s := Run(first, actions);
    var t, m := Step(s, Mark), HighWater(s.log);
    InitialValid(first, mode);
    RunKeeps(first, actions);
    assert ValidLog(s.log) && s.start.Some?;
    assert t == s.(marker := Some(m));
    HighWaterIn(s.log);
    if Covered(s.log, s.sent, s.start.value, m) {
      forall second, more | Resumes(t, m, second, more) ensures NothingLost(t, Run(second, more)) {
        ResumedAll(t, m, second, more);
      }
    }
    if forall second, more | Resumes(t, m, second, more) :: NothingLost(t, Run(second, more)) {
      QuietStream(s.log);
      assert Resumes(t, m, Quiet(s.log, m), QuietRun);
      QuietCovers(t, Run(Quiet(s.log, m), QuietRun), m);
    }
  }

  lemma ResumedAll(t: State, m: nat, second: State, more: seq<Action>)
    requires t.start.Some? && ValidLog(t.log) && InLog(t.log, m) && Covered(t.log, t.sent, t.start.value, m)
    requires Resumes(t, m, second, more)
    ensures NothingLost(t, Run(second, more))
  {
    var u := Run(second, more);
    forall e | e in u.log && Wanted(e) && t.start.value < e.cursor && Passed(u, e) ensures e in t.sent || e in u.sent {
      ResumeComplete(t, m, second, more, e);
    }
  }

  lemma QuietCovers(t: State, u: State, m: nat)
    requires t.start.Some? && NothingLost(t, u) && IsCaughtUp(u) && u.log == t.log && u.published == m && u.sent == []
    ensures Covered(t.log, t.sent, t.start.value, m)
  {
    forall e | e in t.log && Wanted(e) && t.start.value < e.cursor <= m ensures e in t.sent {
      assert Passed(u, e);
    }
  }

  // ---- The marker can run ahead --------------------------------------------------------------------------

  /** A live stream over an empty log. */
  const NoEvent :=
    State([], 0, Subscribing, Channel([], false, 0, 0), false, None, None, 0, {}, None, [], [], None)

  lemma AheadRun()
    ensures Initial(NoEvent, LiveOnly) && RunInOrder(NoEvent, [Subscribe, Commit(E1)])
    ensures Run(NoEvent, [Subscribe, Commit(E1)]) ==
            NoEvent.(log := [E1], phase := Live, channel := Channel([], true, 0, 0), start := Some(0))
  {
    var s1 := NoEvent.(phase := Live, channel := Channel([], true, 0, 0), start := Some(0));
    assert Step(NoEvent, Subscribe) == s1;
    assert Step(s1, Commit(E1)) == s1.(log := [E1]);
    RunFirst(s1, Commit(E1), []);
    RunFirst(NoEvent, Subscribe, [Commit(E1)]);
    assert [Commit(E1)] + [] == [Commit(E1)] && [Subscribe] + [Commit(E1)] == [Subscribe, Commit(E1)];
  }

  /** An event that is committed after the subscription and before the marker is behind the marker's
      cursor although it was not sent: a client that resumes there can lose it. */
  lemma MarkerRunsAhead()
    ensures Initial(NoEvent, LiveOnly) && RunInOrder(NoEvent, [Subscribe, Commit(E1)])
    ensures var s := Run(NoEvent, [Subscribe, Commit(E1)]);
            var t := Step(s, Mark);
            && t.marker == Some(1) && t.start == Some(0) && E1 in t.log && Wanted(E1) && E1 !in t.sent
            && exists second, more :: Resumes(t, 1, second, more) && !NothingLost(t, Run(second, more))
  {
    AheadRun();
    var s := Run(NoEvent, [Subscribe, Commit(E1)]);
    assert HighWater([E1]) == 1 && Enabled(s, Mark);
    MarkerResume(NoEvent, LiveOnly, [Subscribe, Commit(E1)]);
    assert E1 in s.log && !Covered(s.log, s.sent, s.start.value, 1);
  }
}
