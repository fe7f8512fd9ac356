/** What every run of recorders and replays keeps (internal/resumer/temp_file_store.go:119-184, 242-304, 330-441). */
module ReplaySafety {
  import opened Wrappers
  import opened Bytes
  import opened Resumer
  import opened Replay

  // ---- Invariants ----------------------------------------------------------------------------------

  /** An incomplete recording is the one its conversation keeps, and its own locator is published. */
  ghost predicate Active(s: Shelf, h: nat)
    requires h < |s.recs|
  {
    var r := s.recs[h];
    && r.conversation in s.current && s.current[r.conversation] == h
    && (s.shared ==> r.conversation in s.locators && s.locators[r.conversation] == r.path)
  }

  ghost predicate ValidShelf(s: Shelf) {
    && Indexed(s)
    && (forall c | c in s.current :: s.recs[s.current[c]].conversation == c)
    && (forall h | 0 <= h < |s.recs| :: !s.recs[h].complete ==> Active(s, h))
    && (forall h | 0 <= h < |s.recs| :: s.recs[h].size <= |s.recs[h].file|)
  }

  /** The replay has read as far as `offset`, and what it sent is all of that or less. */
  ghost predicate Following(r: Replay, rec: Rec) {
    && r.offset <= rec.size <= |rec.file|
    && |r.sent| <= r.offset
    && (|r.sent| == r.offset ==> r.sent == rec.file[..r.offset])
    && (r.phase.Reading? ==> r.offset < r.phase.size <= rec.size)
    && (r.phase == Finished ==> rec.complete && r.offset == rec.size)
  }

  ghost predicate ValidReplay(s: State, i: nat)
    requires i < |s.replays|
  {
    s.replays[i].rec < |s.shelf.recs| && Following(s.replays[i], s.shelf.recs[s.replays[i].rec])
  }

  ghost predicate Valid(s: State) {
    ValidShelf(s.shelf) && forall i | 0 <= i < |s.replays| :: ValidReplay(s, i)
  }

  /** Files only grow, and a complete recording never changes again. */
  ghost predicate Grew(r: Rec, t: Rec) {
    && r.conversation == t.conversation && r.path == t.path
    && r.file <= t.file && r.size <= t.size
    && (r.complete ==> t == r)
  }

  ghost predicate Extends(s: Shelf, t: Shelf) {
    |s.recs| <= |t.recs| && forall h | 0 <= h < |s.recs| :: Grew(s.recs[h], t.recs[h])
  }

  // ---- The recorder operations ---------------------------------------------------------------------

  lemma WrittenKeeps(s: Shelf, h: nat, token: seq<Byte>, written: nat, ok: bool)
    requires ValidShelf(s) && h < |s.recs| && written <= |token|
    ensures ValidShelf(Written(s, h, token, written, ok)) && Extends(s, Written(s, h, token, written, ok))
  {
    var t := Written(s, h, token, written, ok);
    forall g | 0 <= g < |s.recs| ensures !t.recs[g].complete ==> Active(t, g) {
      assert !s.recs[g].complete ==> Active(s, g);
    }
  }

  lemma CompletedKeeps(s: Shelf, h: nat, at: int, removed: bool)
    requires ValidShelf(s) && h < |s.recs|
    ensures ValidShelf(Completed(s, h, at, removed)) && Extends(s, Completed(s, h, at, removed))
    ensures Completed(s, h, at, removed).recs[h].complete
  {
    var t := Completed(s, h, at, removed);
    forall g | 0 <= g < |s.recs| && !t.recs[g].complete ensures Active(t, g) {
      assert Active(s, g);
      assert !s.recs[h].complete ==> Active(s, h);
    }
  }

  lemma CleanedValid(s: Shelf, now: int)
    requires ValidShelf(s)
    ensures ValidShelf(Cleaned(s, now)) && Extends(s, Cleaned(s, now))
  {
    var t := Cleaned(s, now);
    forall g | 0 <= g < |t.recs| && !t.recs[g].complete ensures Active(t, g) {
      assert Active(s, g);
    }
  }

  ghost predicate Retired(s: Shelf, conv: string)
    requires Indexed(s)
  {
    conv in s.current ==> s.recs[s.current[conv]].complete
  }

  lemma InstalledKeeps(s: Shelf, conv: string, path: string, o: Outcome)
    requires ValidShelf(s) && Retired(s, conv)
    ensures ValidShelf(Installed(s, conv, path, o)) && Extends(s, Installed(s, conv, path, o))
  {
    var t := Installed(s, conv, path, o);
    forall g | 0 <= g < |t.recs| && !t.recs[g].complete ensures Active(t, g) {
      if g < |s.recs| {
        assert Active(s, g);
        assert t.recs[g] == s.recs[g];
        assert s.recs[g].conversation != conv;
      }
    }
  }

  lemma SupersededKeeps(s: Shelf, conv: string, at: int, removed: bool)
    requires ValidShelf(s)
    ensures var t := Superseded(s, conv, at, removed); ValidShelf(t) && Extends(s, t) && Retired(t, conv)
  {
    if conv in s.current {
      CompletedKeeps(s, s.current[conv], at, removed);
    }
  }

  lemma ExtendsTrans(s: Shelf, t: Shelf, u: Shelf)
    requires Extends(s, t) && Extends(t, u)
    ensures Extends(s, u)
  {
    forall h | 0 <= h < |s.recs| ensures Grew(s.recs[h], u.recs[h]) {
      assert Grew(s.recs[h], t.recs[h]) && Grew(t.recs[h], u.recs[h]);
    }
  }

  lemma StartedKeeps(s: Shelf, conv: string, path: string, o: Outcome, now: int, at: int)
    requires ValidShelf(s)
    ensures ValidShelf(Started(s, conv, path, o, now, at)) && Extends(s, Started(s, conv, path, o, now, at))
  {
    assert Indexed(s);
    hide ValidShelf, Extends, Cleaned, Superseded, Installed;
    var s1 := Cleaned(s, now);
    CleanedValid(s, now);
    SupersededKeeps(s1, conv, at, o.removed);
    var s2 := Superseded(s1, conv, at, o.removed);
    InstalledKeeps(s2, conv, path, o);
    ExtendsTrans(s, s1, s2);
    ExtendsTrans(s, s2, Installed(s2, conv, path, o));
  }

  // ---- The replays ------------------------------------------------------------------------------------

  lemma FollowingGrew(r: Replay, rec: Rec, t: Rec)
    requires Following(r, rec) && Grew(rec, t) && t.size <= |t.file|
    ensures Following(r, t)
  {
    assert t.file[..r.offset] == rec.file[..r.offset];
  }

  lemma DeliveredFollows(r: Replay, rec: Rec, ok: bool)
    requires Following(r, rec) && r.phase.Reading?
    ensures Following(Delivered(r, rec, ok), rec)
    ensures ok && |r.sent| == r.offset ==>
              var d := Delivered(r, rec, ok);
              |d.sent| == d.offset <==> r.phase.size - r.offset <= MaxRead
    ensures ok && |r.sent| < r.offset ==> |Delivered(r, rec, ok).sent| < Delivered(r, rec, ok).offset
  {
    var size := r.phase.size;
    if ok {
      var chunk := ReadRange(rec.file, r.offset, size - r.offset);
      assert |chunk| == Min(size - r.offset, MaxRead);
      assert rec.file[..r.offset] + rec.file[r.offset..size] == rec.file[..size];
    }
  }

  lemma ReplaysKept(s: State, shelf: Shelf)
    requires Valid(s) && Extends(s.shelf, shelf) && ValidShelf(shelf)
    ensures Valid(s.(shelf := shelf))
  {
    forall i | 0 <= i < |s.replays| ensures ValidReplay(s.(shelf := shelf), i) {
      assert ValidReplay(s, i);
      var h := s.replays[i].rec;
      FollowingGrew(s.replays[i], s.shelf.recs[h], shelf.recs[h]);
    }
  }

  lemma ReplayKept(s: State, i: nat, r: Replay)
    requires Valid(s) && i < |s.replays| && r.rec < |s.shelf.recs| && Following(r, s.shelf.recs[r.rec])
    ensures Valid(s.(replays := s.replays[i := r]))
  {
    var t := s.(replays := s.replays[i := r]);
    forall j | 0 <= j < |t.replays| ensures ValidReplay(t, j) {
      assert ValidReplay(s, j);
    }
  }

  lemma OpenKeeps(s: State, conv: string, now: int, found: bool)
    requires Valid(s)
    ensures Valid(OpenReplay(s, conv, now, found)) && Extends(s.shelf, OpenReplay(s, conv, now, found).shelf)
  {
    CleanedValid(s.shelf, now);
    ReplaysKept(s, Cleaned(s.shelf, now));
    var m, t := s.(shelf := Cleaned(s.shelf, now)), OpenReplay(s, conv, now, found);
    forall j | 0 <= j < |t.replays| ensures ValidReplay(t, j) {
      if j < |s.replays| {
        assert ValidReplay(m, j);
      }
    }
  }

  lemma PollKeeps(s: State, i: nat)
    requires Valid(s) && Enabled(s, Poll(i))
    ensures Valid(Step(s, Poll(i)))
  {
    assert ValidReplay(s, i);
    ReplayKept(s, i, Polled(s.replays[i], s.shelf.recs[s.replays[i].rec]));
  }

  lemma DeliverKeeps(s: State, i: nat, ok: bool)
    requires Valid(s) && Enabled(s, Deliver(i, ok))
    ensures Valid(Step(s, Deliver(i, ok)))
  {
    assert ValidReplay(s, i);
    var rec := s.shelf.recs[s.replays[i].rec];
    DeliveredFollows(s.replays[i], rec, ok);
    ReplayKept(s, i, Delivered(s.replays[i], rec, ok));
  }

  lemma LeaveKeeps(s: State, i: nat)
    requires Valid(s) && Enabled(s, Leave(i))
    ensures Valid(Step(s, Leave(i)))
  {
    assert ValidReplay(s, i);
    ReplayKept(s, i, s.replays[i].(phase := Stopped));
  }

  lemma ExtendsSelf(s: Shelf)
    ensures Extends(s, s)
  {
  }

  /** Every step keeps the invariant; files only grow and complete recordings stay as they are. */
  lemma StepKeeps(s: State, a: Action)
    requires Valid(s)
    ensures Valid(Step(s, a)) && Extends(s.shelf, Step(s, a).shelf)
  {
    ExtendsSelf(s.shelf);
    assert ValidShelf(s.shelf);
    hide Valid, Extends, ValidShelf, Started, Written, Completed, Cleaned, OpenReplay, Polled, Delivered;
    if Enabled(s, a) {
      match a
      case Start(conv, path, o, now, at) => StartedKeeps(s.shelf, conv, path, o, now, at); ReplaysKept(s, Step(s, a).shelf);
      case Record(h, token, written, ok) => WrittenKeeps(s.shelf, h, token, written, ok); ReplaysKept(s, Step(s, a).shelf);
      case Complete(h, at, removed) => CompletedKeeps(s.shelf, h, at, removed); ReplaysKept(s, Step(s, a).shelf);
      case Check(now) => CleanedValid(s.shelf, now); ReplaysKept(s, Step(s, a).shelf);
      case Open(conv, now, found) => OpenKeeps(s, conv, now, found);
      case Poll(i) => PollKeeps(s, i);
      case Deliver(i, ok) => DeliverKeeps(s, i, ok);
      case Leave(i) => LeaveKeeps(s, i);
    }
  }

  lemma {:induction false} RunKeeps(s: State, actions: seq<Action>)
    requires Valid(s)
    ensures Valid(Run(s, actions)) && Extends(s.shelf, Run(s, actions).shelf)
  {
    if actions == [] {
      ExtendsSelf(s.shelf);
    } else {
      var front := Run(s, actions[..|actions| - 1]);
      RunKeeps(s, actions[..|actions| - 1]);
      StepKeeps(front, actions[|actions| - 1]);
      ExtendsTrans(s.shelf, front.shelf, Run(s, actions).shelf);
    }
  }

  // ---- Recordings over whole runs -----------------------------------------------------------------------

  function Empty(retention: int, shared: bool): State {
    State(Shelf(retention, shared, [], map[], map[]), [])
  }

  ghost predicate Recording(s: Shelf, conv: string, h: nat) {
    h < |s.recs| && s.recs[h].conversation == conv && !s.recs[h].complete
  }

  /** In every run a conversation has at most one incomplete recording, which a lookup finds and whose
      own locator is published; and a response is reported to be in progress exactly if there is one. */
  lemma OneRecording(retention: int, shared: bool, actions: seq<Action>, conv: string)
    ensures var s := Run(Empty(retention, shared), actions).shelf;
            && (forall g, h :: Recording(s, conv, g) && Recording(s, conv, h) ==> g == h)
            && (forall h :: Recording(s, conv, h) ==> Active(s, h))
            && (InProgress(s, conv) <==> exists h :: Recording(s, conv, h))
  {
    RunKeeps(Empty(retention, shared), actions);
    var s := Run(Empty(retention, shared), actions).shelf;
    forall h | Recording(s, conv, h) ensures Active(s, h) {
    }
    if InProgress(s, conv) {
      assert Recording(s, conv, s.current[conv]);
    }
  }

  lemma RetiredAll(s: Shelf, conv: string, h: nat)
    requires ValidShelf(s) && Retired(s, conv) && h < |s.recs| && s.recs[h].conversation == conv
    ensures s.recs[h].complete
  {
    assert !s.recs[h].complete ==> Active(s, h);
  }

  lemma StartRetires(s: Shelf, conv: string, path: string, o: Outcome, now: int, at: int, h: nat)
    requires ValidShelf(s) && h < |s.recs| && s.recs[h].conversation == conv
    ensures h < |Started(s, conv, path, o, now, at).recs| && Started(s, conv, path, o, now, at).recs[h].complete
  {
    assert Indexed(s);
    var s1 := Cleaned(s, now);
    CleanedValid(s, now);
    SupersededKeeps(s1, conv, at, o.removed);
    var s2 := Superseded(s1, conv, at, o.removed);
    assert Grew(s1.recs[h], s2.recs[h]);
    RetiredAll(s2, conv, h);
  }

  lemma SameAt<T>(s: seq<T>, i: nat, x: T)
    requires i < |s| && s[i] == x
    ensures s[i := x] == s
  {
  }

  lemma CompleteIsInert(s: State, h: nat, a: Action)
    requires Indexed(s.shelf) && h < |s.shelf.recs| && s.shelf.recs[h].complete
    requires (a.Record? && a.h == h) || (a.Complete? && a.h == h)
    ensures Step(s, a) == s
  {
    SameAt(s.shelf.recs, h, s.shelf.recs[h]);
  }

  /** Asking for a new recorder completes the old ones, whether or not it succeeds; and nothing that an
      old recorder does at any later time changes the store, the new recording or its locator. */
  lemma SupersededIsInert(s: State, conv: string, path: string, o: Outcome, now: int, at: int, h: nat, later: seq<Action>, a: Action)
    requires Valid(s) && h < |s.shelf.recs| && s.shelf.recs[h].conversation == conv
    requires (a.Record? && a.h == h) || (a.Complete? && a.h == h)
    ensures var t := Step(s, Start(conv, path, o, now, at));
            var u := Run(t, later);
            && h < |t.shelf.recs| && h < |u.shelf.recs|
            && t.shelf.recs[h].complete && u.shelf.recs[h] == t.shelf.recs[h]
            && Step(u, a) == u
  {
    var t := Step(s, Start(conv, path, o, now, at));
    StepKeeps(s, Start(conv, path, o, now, at));
    StartRetires(s.shelf, conv, path, o, now, at, h);
    RunKeeps(t, later);
    var u := Run(t, later);
    assert Grew(t.shelf.recs[h], u.shelf.recs[h]);
    CompleteIsInert(u, h, a);
  }

  // ---- Locators ----------------------------------------------------------------------------------------------

  /** If the step completes a recording, the removal of its locator succeeds. */
  predicate RemovesLocator(a: Action) {
    match a
    case Start(_, _, o, _, _) => o.removed
    case Complete(_, _, removed) => removed
    case _ => true
  }

  /** The conversations with a locator are those with a response in progress. */
  ghost predicate Published(s: Shelf)
    requires Indexed(s)
  {
    forall c :: c in s.locators <==> InProgress(s, c)
  }

  lemma CleanedPublished(s: Shelf, now: int)
    requires Indexed(s) && Published(s)
    ensures Published(Cleaned(s, now))
  {
    forall c ensures InProgress(s, c) <==> InProgress(Cleaned(s, now), c) {}
  }

  lemma CompletedPublished(s: Shelf, h: nat, at: int)
    requires ValidShelf(s) && s.shared && Published(s) && h < |s.recs|
    ensures Published(Completed(s, h, at, true))
  {
    var t := Completed(s, h, at, true);
    assert !s.recs[h].complete ==> Active(s, h);
    forall c ensures c in t.locators <==> InProgress(t, c) {
      assert c in s.locators <==> InProgress(s, c);
    }
  }

  lemma InstalledPublished(s: Shelf, conv: string, path: string, o: Outcome)
    requires Indexed(s) && s.shared && Published(s) && Retired(s, conv)
    ensures Published(Installed(s, conv, path, o))
  {
    var t := Installed(s, conv, path, o);
    forall c ensures c in t.locators <==> InProgress(t, c) {
      assert c in s.locators <==> InProgress(s, c);
    }
  }

  lemma StartedPublished(s: Shelf, conv: string, path: string, o: Outcome, now: int, at: int)
    requires ValidShelf(s) && s.shared && Published(s) && o.removed
    ensures Published(Started(s, conv, path, o, now, at)) && Started(s, conv, path, o, now, at).shared
  {
    var s1 := Cleaned(s, now);
    CleanedValid(s, now);
    CleanedPublished(s, now);
    var s2 := Superseded(s1, conv, at, o.removed);
    SupersededKeeps(s1, conv, at, o.removed);
    assert s1.shared && s2.shared && Installed(s2, conv, path, o).shared;
    hide Cleaned, Installed, Published, ValidShelf, Completed;
    if conv in s1.current {
      CompletedPublished(s1, s1.current[conv], at);
    }
    InstalledPublished(s2, conv, path, o);
  }

  lemma StepPublished(s: State, a: Action)
    requires Valid(s) && s.shelf.shared && Published(s.shelf) && RemovesLocator(a)
    ensures var t := Step(s, a).shelf; t.shared && Indexed(t) && Published(t)
  {
    assert ValidShelf(s.shelf) && Indexed(s.shelf);
    StepKeeps(s, a);
    assert Indexed(Step(s, a).shelf);
    hide Valid, ValidShelf, Published, Started, Polled, Delivered;
    if Enabled(s, a) {
      match a
      case Start(conv, path, o, now, at) => StartedPublished(s.shelf, conv, path, o, now, at);
      case Record(h, token, written, ok) => WrittenPublished(s.shelf, h, token, written, ok);
      case Complete(h, at, removed) => CompletedPublished(s.shelf, h, at);
      case Check(now) => CleanedPublished(s.shelf, now);
      case Open(conv, now, found) => CleanedPublished(s.shelf, now);
      case _ =>
    }
  }

  lemma WrittenPublished(s: Shelf, h: nat, token: seq<Byte>, written: nat, ok: bool)
    requires Indexed(s) && Published(s) && h < |s.recs| && written <= |token|
    ensures Indexed(Written(s, h, token, written, ok)) && Published(Written(s, h, token, written, ok))
  {
    var t := Written(s, h, token, written, ok);
    forall c ensures InProgress(s, c) <==> InProgress(t, c) {}
  }

  lemma {:induction false} RunPublished(s: State, actions: seq<Action>)
    requires Valid(s) && s.shelf.shared && Published(s.shelf) && forall i | 0 <= i < |actions| :: RemovesLocator(actions[i])
    ensures var t := Run(s, actions).shelf; t.shared && Published(t)
  {
    if actions != [] {
      var front := actions[..|actions| - 1];
      RunPublished(s, front);
      RunKeeps(s, front);
      StepPublished(Run(s, front), actions[|actions| - 1]);
    }
  }

  /** The conversation has a locator exactly if it has an incomplete recording, and it is that of the recording. */
  ghost predicate Located(s: Shelf, conv: string) {
    && (conv in s.locators <==> exists h :: Recording(s, conv, h))
    && (forall h: nat | Recording(s, conv, h) :: conv in s.locators && s.locators[conv] == s.recs[h].path)
  }

  lemma PublishedLocated(s: Shelf, conv: string)
    requires ValidShelf(s) && s.shared && Published(s)
    ensures Located(s, conv)
  {
    forall h: nat | Recording(s, conv, h) ensures conv in s.locators && s.locators[conv] == s.recs[h].path {
      assert Active(s, h);
    }
    if conv in s.locators {
      assert Recording(s, conv, s.current[conv]);
    }
  }

  /** Over every run in which no removal of a locator fails, locators are published for exactly the incomplete recordings. */
  lemma LocatorsExact(retention: int, actions: seq<Action>, conv: string)
    requires forall i | 0 <= i < |actions| :: RemovesLocator(actions[i])
    ensures Located(Run(Empty(retention, true), actions).shelf, conv)
  {
    var empty := Empty(retention, true);
    assert Valid(empty) && Published(empty.shelf) && empty.shelf.shared;
    RunKeeps(empty, actions);
    RunPublished(empty, actions);
    assert ValidShelf(Run(empty, actions).shelf);
    PublishedLocated(Run(empty, actions).shelf, conv);
  }

  // ---- Retention ------------------------------------------------------------------------------------------

  /** The action neither starts a recorder for `conv` nor happens after `until`. */
  predicate Before(a: Action, conv: string, until: int) {
    match a
    case Start(c, _, _, now, _) => c != conv && now < until
    case Check(now) => now < until
    case Open(_, now, _) => now < until
    case _ => true
  }

  ghost predicate Available(s: Shelf, h: nat, at: int) {
    && Indexed(s) && h < |s.recs| && s.recs[h].complete && s.recs[h].completedAt == at
    && s.recs[h].conversation in s.current && s.current[s.recs[h].conversation] == h
  }

  lemma AvailableCleaned(s: Shelf, now: int, h: nat, at: int)
    requires Available(s, h, at) && s.retention > 0 && now < at + s.retention
    ensures Available(Cleaned(s, now), h, at)
  {
  }

  lemma AvailableStarted(s: Shelf, conv: string, path: string, o: Outcome, now: int, at: int, h: nat, done: int)
    requires Available(s, h, done) && s.retention > 0 && now < done + s.retention && conv != s.recs[h].conversation
    ensures Available(Started(s, conv, path, o, now, at), h, done) && Started(s, conv, path, o, now, at).retention == s.retention
  {
    var s1 := Cleaned(s, now);
    AvailableCleaned(s, now, h, done);
    var s2 := Superseded(s1, conv, at, o.removed);
    assert Available(s2, h, done) && s2.retention == s.retention && s2.recs[h].conversation == s.recs[h].conversation;
    hide Cleaned, Superseded;
    assert Started(s, conv, path, o, now, at) == Installed(s2, conv, path, o);
  }

  lemma AvailableStep(s: State, a: Action, h: nat, at: int)
    requires Available(s.shelf, h, at) && s.shelf.retention > 0
    requires Before(a, s.shelf.recs[h].conversation, at + s.shelf.retention)
    ensures Available(Step(s, a).shelf, h, at) && Step(s, a).shelf.retention == s.shelf.retention
  {
    match a
    case Start(conv, path, o, now, t) => AvailableStarted(s.shelf, conv, path, o, now, t, h, at);
    case Check(now) => AvailableCleaned(s.shelf, now, h, at);
    case Open(_, now, _) => AvailableCleaned(s.shelf, now, h, at);
    case _ => hide Cleaned, Started, Polled, Delivered;
  }

  /** A complete recording can be replayed until its retention time has passed, unless a new recorder
      for its conversation is asked for. */
  lemma {:induction false} StaysAvailable(s: State, actions: seq<Action>, h: nat, at: int)
    requires Valid(s) && Available(s.shelf, h, at) && s.shelf.retention > 0
    requires forall i | 0 <= i < |actions| :: Before(actions[i], s.shelf.recs[h].conversation, at + s.shelf.retention)
    ensures var t := Run(s, actions).shelf;
            Available(t, h, at) && t.retention == s.shelf.retention && t.recs[h] == s.shelf.recs[h]
  {
    if actions != [] {
      var front := actions[..|actions| - 1];
      StaysAvailable(s, front, h, at);
      RunKeeps(s, front);
      AvailableStep(Run(s, front), actions[|actions| - 1], h, at);
      StepKeeps(Run(s, front), actions[|actions| - 1]);
      assert Grew(Run(s, front).shelf.recs[h], Run(s, actions).shelf.recs[h]);
    }
  }

  /** What a lookup finds at `now`: the conversation's latest recording, unless it is complete and its retention has passed. */
  lemma LookupExact(s: State, conv: string, now: int)
    requires Indexed(s.shelf)
    ensures var t := Step(s, Open(conv, now, true));
            var found := conv in s.shelf.current
                         && var r := s.shelf.recs[s.shelf.current[conv]];
                            !r.complete || s.shelf.retention <= 0 || now < r.completedAt + s.shelf.retention;
            && (found ==> t.replays == s.replays + [Replay(s.shelf.current[conv], 0, [], Polling)])
            && (!found ==> t.replays == s.replays && conv !in t.shelf.current)
            && t.shelf.recs == s.shelf.recs && t.shelf.locators == s.shelf.locators
  {
  }

  // ---- Replays over whole runs --------------------------------------------------------------------------

  /** If the step delivers for replay `i`, what it has not read yet fits one read. */
  ghost predicate Fits(s: State, a: Action, i: nat) {
    a.Deliver? && a.i == i && a.ok && Enabled(s, a) ==> s.replays[i].phase.size - s.replays[i].offset <= MaxRead
  }

  /** Whenever the run delivers for replay `i`, the unread gap is at most one read. */
  ghost predicate WithinWindow(s: State, actions: seq<Action>, i: nat)
    requires Indexed(s.shelf)
  {
    actions == [] || (WithinWindow(s, actions[..|actions| - 1], i) && Fits(Run(s, actions[..|actions| - 1]), actions[|actions| - 1], i))
  }

  ghost predicate AllSent(r: Replay) {
    |r.sent| == r.offset
  }

  lemma SentStep(s: State, a: Action, i: nat)
    requires Valid(s) && i < |s.replays|
    ensures i < |Step(s, a).replays| && Step(s, a).replays[i].rec == s.replays[i].rec
    ensures AllSent(Step(s, a).replays[i]) <==> AllSent(s.replays[i]) && Fits(s, a, i)
  {
    if Enabled(s, a) && a.Deliver? && a.i == i {
      assert ValidReplay(s, i);
      DeliveredFollows(s.replays[i], s.shelf.recs[s.replays[i].rec], a.ok);
    }
  }

  lemma {:induction false} SentRun(s: State, actions: seq<Action>, i: nat)
    requires Valid(s) && i < |s.replays| && AllSent(s.replays[i])
    ensures var t := Run(s, actions);
            i < |t.replays| && t.replays[i].rec == s.replays[i].rec && (AllSent(t.replays[i]) <==> WithinWindow(s, actions, i))
  {
    if actions != [] {
      SentRun(s, actions[..|actions| - 1], i);
      RunKeeps(s, actions[..|actions| - 1]);
      SentStep(Run(s, actions[..|actions| - 1]), actions[|actions| - 1], i);
    }
  }

  ghost predicate Opened(s: State, i: nat, h: nat) {
    i < |s.replays| && s.replays[i] == Replay(h, 0, [], Polling)
  }

  /** Over every interleaving: as long as no unread gap exceeds one read, a replay has sent a prefix of
      the recorded bytes; and when it ends because the recording is complete, it has sent all of them
      exactly if no gap ever did. */
  lemma ReplayExact(s: State, actions: seq<Action>, i: nat, h: nat)
    requires Valid(s) && Opened(s, i, h)
    ensures var t := Run(s, actions);
            && i < |t.replays| && h < |t.shelf.recs| && t.shelf.recs[h].size <= |t.shelf.recs[h].file|
            && var recorded := t.shelf.recs[h].file[..t.shelf.recs[h].size];
               && (WithinWindow(s, actions, i) ==> t.replays[i].sent <= recorded)
               && (t.replays[i].phase == Finished ==>
                     t.shelf.recs[h].complete && (t.replays[i].sent == recorded <==> WithinWindow(s, actions, i)))
  {
    RunKeeps(s, actions);
    SentRun(s, actions, i);
    var t := Run(s, actions);
    assert ValidReplay(t, i);
    var rec := t.shelf.recs[h];
    assert rec.file[..rec.size][..t.replays[i].offset] == rec.file[..t.replays[i].offset];
  }

  /** When the bytes are read does not matter: a turn reads the same bytes however much was recorded
      after its poll. */
  lemma TurnInterleaved(r: Replay, rec: Rec, later: Rec)
    requires Following(r, rec) && r.phase == Polling && Grew(rec, later) && Polled(r, rec).phase.Reading?
    ensures r.offset <= |later.file| && Delivered(Polled(r, rec), later, true) == Turn(r, rec)
  {
    var n := Min(r.offset + Min(rec.size - r.offset, MaxRead), |rec.file|);
    assert later.file[r.offset..n] == rec.file[r.offset..n];
  }

  // ---- The loop as steps of the machine -------------------------------------------------------------

  /** One turn of the loop among the steps of others: what happens before it polls, and before it reads. */
  datatype Round = Round(before: seq<Action>, between: seq<Action>)

  /** Steps that do not belong to replay `i`. */
  ghost predicate Others(actions: seq<Action>, i: nat) {
    forall k | 0 <= k < |actions| :: !actions[k].Leave? && (actions[k].Poll? || actions[k].Deliver? ==> actions[k].i != i)
  }

  ghost predicate OthersOnly(rounds: seq<Round>, i: nat) {
    forall k | 0 <= k < |rounds| :: Others(rounds[k].before, i) && Others(rounds[k].between, i)
  }

  function Taken(rounds: seq<Round>, i: nat): seq<Action> {
    if rounds == [] then []
    else
      var last := rounds[|rounds| - 1];
      Taken(rounds[..|rounds| - 1], i) + (last.before + ([Poll(i)] + (last.between + [Deliver(i, true)])))
  }

  /** The recording as the loop finds it at each of its polls. */
  ghost function Views(s: State, rounds: seq<Round>, i: nat, h: nat): (r: seq<Rec>)
    requires Valid(s) && h < |s.shelf.recs|
    ensures Measured(r)
  {
    if rounds == [] then []
    else
      var front := rounds[..|rounds| - 1];
      var t := Run(s, Taken(front, i) + rounds[|rounds| - 1].before);
      RunKeeps(s, Taken(front, i) + rounds[|rounds| - 1].before);
      Views(s, front, i, h) + [t.shelf.recs[h]]
  }

  lemma OtherStep(s: State, a: Action, i: nat)
    requires Valid(s) && i < |s.replays| && !a.Leave? && (a.Poll? || a.Deliver? ==> a.i != i)
    ensures i < |Step(s, a).replays| && Step(s, a).replays[i] == s.replays[i]
  {
  }

  lemma {:induction false} OthersKeep(s: State, actions: seq<Action>, i: nat)
    requires Valid(s) && i < |s.replays| && Others(actions, i)
    ensures var t := Run(s, actions); Valid(t) && Extends(s.shelf, t.shelf) && i < |t.replays| && t.replays[i] == s.replays[i]
  {
    RunKeeps(s, actions);
    if actions != [] {
      var front := actions[..|actions| - 1];
      OthersKeep(s, front, i);
      OtherStep(Run(s, front), actions[|actions| - 1], i);
    }
  }

  lemma PollStep(s: State, i: nat)
    requires Valid(s) && i < |s.replays| && s.replays[i].phase == Polling
    ensures var r, t := s.replays[i], Step(s, Poll(i));
            && r.rec < |s.shelf.recs| && Valid(t) && t.shelf == s.shelf && |t.replays| == |s.replays|
            && t.replays[i] == Polled(r, s.shelf.recs[r.rec])
  {
    assert ValidReplay(s, i);
    PollKeeps(s, i);
  }

  lemma DeliverStep(s: State, i: nat)
    requires Valid(s) && i < |s.replays| && s.replays[i].phase.Reading?
    ensures var r, t := s.replays[i], Step(s, Deliver(i, true));
            && r.rec < |s.shelf.recs| && r.offset < r.phase.size && r.offset <= |s.shelf.recs[r.rec].file|
            && i < |t.replays| && t.replays[i] == Delivered(r, s.shelf.recs[r.rec], true)
  {
    assert ValidReplay(s, i);
  }

  lemma RestingStep(s: State, i: nat, a: Action)
    requires Indexed(s.shelf) && i < |s.replays|
    requires ((a == Poll(i) && s.replays[i].phase != Polling) || (a == Deliver(i, true) && !s.replays[i].phase.Reading?))
    ensures Step(s, a) == s
  {
  }

  /** A round takes the loop one turn further, on the recording as it was at the poll. */
  lemma RoundTurns(s: State, round: Round, i: nat)
    requires Valid(s) && i < |s.replays| && s.replays[i].phase in {Polling, Finished}
    requires Others(round.before, i) && Others(round.between, i)
    ensures var r, t := s.replays[i], Run(s, round.before);
            var u := Step(Run(Step(t, Poll(i)), round.between), Deliver(i, true));
            && r.rec < |t.shelf.recs| && t.shelf.recs[r.rec].size <= |t.shelf.recs[r.rec].file|
            && i < |u.replays| && u.replays[i].rec == r.rec && u.replays[i].phase in {Polling, Finished}
            && u.replays[i] == if r.phase == Polling then Turn(r, t.shelf.recs[r.rec]) else r
  {
    var r, t := s.replays[i], Run(s, round.before);
    OthersKeep(s, round.before, i);
    assert ValidReplay(t, i);
    var rec := t.shelf.recs[r.rec];
    var t1 := Step(t, Poll(i));
    if r.phase == Polling {
      PollStep(t, i);
    } else {
      RestingStep(t, i, Poll(i));
    }
    var t2 := Run(t1, round.between);
    OthersKeep(t1, round.between, i);
    if t1.replays[i].phase.Reading? {
      DeliverStep(t2, i);
      var later := t2.shelf.recs[r.rec];
      assert Grew(rec, later) && Following(r, rec);
      TurnInterleaved(r, rec, later);
    } else {
      RestingStep(t2, i, Deliver(i, true));
    }
  }

  lemma RoundRun(s: State, actions: seq<Action>, round: Round, i: nat)
    requires Valid(s)
    ensures var t := Run(s, actions);
            && Indexed(t.shelf) && Indexed(Run(t, round.before).shelf) && Indexed(Step(Run(t, round.before), Poll(i)).shelf)
            && Indexed(Run(Step(Run(t, round.before), Poll(i)), round.between).shelf)
            && Run(s, actions + round.before) == Run(t, round.before)
            && Run(s, actions + (round.before + ([Poll(i)] + (round.between + [Deliver(i, true)])))) ==
               Step(Run(Step(Run(t, round.before), Poll(i)), round.between), Deliver(i, true))
  {
    RunKeeps(s, actions);
    var t := Run(s, actions);
    RunKeeps(t, round.before);
    var t0 := Run(t, round.before);
    StepKeeps(t0, Poll(i));
    var t1 := Step(t0, Poll(i));
    RunKeeps(t1, round.between);
    assert Indexed(s.shelf) && Indexed(t.shelf) && Indexed(t0.shelf) && Indexed(t1.shelf);
    hide Valid, Step;
    RunConcat(s, actions, round.before + ([Poll(i)] + (round.between + [Deliver(i, true)])));
    RunConcat(s, actions, round.before);
    RunConcat(t, round.before, [Poll(i)] + (round.between + [Deliver(i, true)]));
    RunConcat(t0, [Poll(i)], round.between + [Deliver(i, true)]);
    RunNext(t0, [], Poll(i));
    assert [] + [Poll(i)] == [Poll(i)];
    RunNext(t1, round.between, Deliver(i, true));
  }

  /** Whatever the others do in between: the loop, run on the recording as it found it at its polls, is a
      replay of the machine. */
  lemma {:induction false} LoopIsReplay(s: State, rounds: seq<Round>, i: nat, h: nat)
    requires Valid(s) && Opened(s, i, h) && h < |s.shelf.recs| && OthersOnly(rounds, i)
    ensures var t := Run(s, Taken(rounds, i));
            i < |t.replays| && t.replays[i] == Turns(h, Views(s, rounds, i, h)) && t.replays[i].phase in {Polling, Finished}
  {
    if rounds != [] {
      var front, last := rounds[..|rounds| - 1], rounds[|rounds| - 1];
      assert OthersOnly(front, i);
      hide Step, Turn, Extends;
      LoopIsReplay(s, front, i, h);
      RunKeeps(s, Taken(front, i));
      TurnsRec(h, Views(s, front, i, h));
      RoundTurns(Run(s, Taken(front, i)), last, i);
      RoundRun(s, Taken(front, i), last, i);
      var views := Views(s, rounds, i, h);
      assert views[..|views| - 1] == Views(s, front, i, h);
    }
  }

  lemma {:induction false} TurnsRec(h: nat, views: seq<Rec>)
    requires Measured(views)
    ensures Turns(h, views).rec == h
  {
    if views != [] {
      TurnsRec(h, views[..|views| - 1]);
    }
  }

  /** A replay that starts when the recording is complete sends the first mebibyte of it and ends. */
  lemma LateReplay(h: nat, rec: Rec, turns: nat)
    requires rec.complete && rec.size <= |rec.file| && turns >= 2
    ensures Measured(seq(turns, _ => rec))
    ensures Turns(h, seq(turns, _ => rec)).phase == Finished
    ensures Turns(h, seq(turns, _ => rec)).sent == rec.file[..if rec.size < 1048576 then rec.size else 1048576]
  {
    var views := seq(turns, _ => rec);
    assert views[..1] == [rec] && views[..2] == [rec, rec];
    assert [rec, rec][..1] == [rec] && [rec][..0] == [];
    var r := Turns(h, []);
    assert Turns(h, [rec]) == Turn(r, rec);
    assert Turns(h, [rec, rec]).phase == Finished;
    FinishedStays(h, views, 2);
  }

  // ---- Tokens ------------------------------------------------------------------------------------------------

  ghost predicate Writes(s: State, a: Action, h: nat) {
    a.Record? && a.h == h && Enabled(s, a) && !s.shelf.recs[h].complete && a.token != []
  }

  /** The tokens that were accepted for a recording during the run. */
  ghost function Tokens(s: State, actions: seq<Action>, h: nat): seq<Byte>
    requires Indexed(s.shelf)
  {
    if actions == [] then []
    else
      var front, a := actions[..|actions| - 1], actions[|actions| - 1];
      Tokens(s, front, h) + if Writes(Run(s, front), a, h) && a.ok then a.token else []
  }

  /** How many bytes failed writes left in its file. */
  ghost function Debris(s: State, actions: seq<Action>, h: nat): nat
    requires Indexed(s.shelf)
  {
    if actions == [] then 0
    else
      var front, a := actions[..|actions| - 1], actions[|actions| - 1];
      Debris(s, front, h) + if Writes(Run(s, front), a, h) && !a.ok then a.written else 0
  }

  lemma WriteStep(s: State, a: Action, h: nat)
    requires Valid(s) && h < |s.shelf.recs|
    ensures var r, t := s.shelf.recs[h], Step(s, a).shelf;
            && h < |t.recs|
            && t.recs[h].size == r.size + (if Writes(s, a, h) && a.ok then |a.token| else 0)
            && t.recs[h].file == r.file + if Writes(s, a, h) then a.token[..a.written] else []
  {
    StepKeeps(s, a);
    assert Grew(s.shelf.recs[h], Step(s, a).shelf.recs[h]);
    hide Valid;
    if Writes(s, a, h) {
    } else if Enabled(s, a) {
      UnwrittenStep(s, a, h);
    }
  }

  lemma StartWritesNothing(s: Shelf, conv: string, path: string, o: Outcome, now: int, at: int, h: nat)
    requires Indexed(s) && h < |s.recs|
    ensures var t := Started(s, conv, path, o, now, at);
            h < |t.recs| && t.recs[h].size == s.recs[h].size && t.recs[h].file == s.recs[h].file
  {
    var s1 := Cleaned(s, now);
    var s2 := Superseded(s1, conv, at, o.removed);
    assert h < |s2.recs| && s2.recs[h].size == s.recs[h].size && s2.recs[h].file == s.recs[h].file;
    hide Cleaned, Superseded;
    assert Started(s, conv, path, o, now, at) == Installed(s2, conv, path, o);
  }

  lemma UnwrittenStep(s: State, a: Action, h: nat)
    requires Indexed(s.shelf) && h < |s.shelf.recs| && !Writes(s, a, h)
    ensures var r, t := s.shelf.recs[h], Step(s, a).shelf;
            h < |t.recs| && t.recs[h].size == r.size && t.recs[h].file == r.file
  {
    if a.Start? {
      StartWritesNothing(s.shelf, a.conv, a.path, a.o, a.now, a.at, h);
    }
    hide Started, Cleaned, Polled, Delivered;
  }

  /** The size counts the accepted bytes; the file also holds what failed writes left; so it is the
      accepted tokens exactly if they left nothing. */
  lemma {:induction false} FileHoldsTokens(s: State, actions: seq<Action>, h: nat)
    requires Valid(s) && Blank(s, h)
    ensures var t, tokens := Run(s, actions), Tokens(s, actions, h);
            && h < |t.shelf.recs| && t.shelf.recs[h].size == |tokens|
            && |t.shelf.recs[h].file| == |tokens| + Debris(s, actions, h)
            && (t.shelf.recs[h].file == tokens <==> Debris(s, actions, h) == 0)
  {
    if actions != [] {
      var front, a := actions[..|actions| - 1], actions[|actions| - 1];
      FileHoldsTokens(s, front, h);
      RunKeeps(s, front);
      WriteStep(Run(s, front), a, h);
      assert Writes(Run(s, front), a, h) && a.ok ==> a.token[..a.written] == a.token;
    }
  }

  lemma {:induction false} RunConcat(s: State, a: seq<Action>, b: seq<Action>)
    requires Indexed(s.shelf)
    ensures Run(s, a + b) == Run(Run(s, a), b)
  {
    if b == [] {
      assert a + b == a;
    } else {
      assert (a + b)[..|a + b| - 1] == a + b[..|b| - 1];
      RunConcat(s, a, b[..|b| - 1]);
    }
  }

  // ---- What failed writes shift --------------------------------------------------------------------------------

  ghost predicate Blank(s: State, h: nat) {
    h < |s.shelf.recs| && s.shelf.recs[h].file == [] && s.shelf.recs[h].size == 0
  }

  /** The recorded bytes, which are those that replays send, are the accepted tokens. */
  ghost predicate Intact(s: State, actions: seq<Action>, h: nat)
    requires Indexed(s.shelf)
  {
    var t := Run(s, actions).shelf;
    h < |t.recs| && t.recs[h].size <= |t.recs[h].file| && t.recs[h].file[..t.recs[h].size] == Tokens(s, actions, h)
  }

  /** If the step accepts a token, then what failed writes left before it reads like its beginning. */
  ghost predicate InPlace(s: State, a: Action, h: nat) {
    Writes(s, a, h) && a.ok && s.shelf.recs[h].size <= |s.shelf.recs[h].file| ==>
      a.token <= s.shelf.recs[h].file[s.shelf.recs[h].size..] + a.token
  }

  ghost predicate AllInPlace(s: State, actions: seq<Action>, h: nat)
    requires Indexed(s.shelf)
  {
    actions == [] || (AllInPlace(s, actions[..|actions| - 1], h) && InPlace(Run(s, actions[..|actions| - 1]), actions[|actions| - 1], h))
  }

  lemma AppendInPlace(file: seq<Byte>, size: nat, tokens: seq<Byte>, token: seq<Byte>)
    requires |tokens| == size <= |file|
    ensures (file + token)[..size + |token|] == tokens + token <==> file[..size] == tokens && token <= file[size..] + token
  {
    var now, n := file + token, size + |token|;
    assert now[..n] == file[..size] + (file[size..] + token)[..|token|];
    assert now[..n][..size] == file[..size] && now[..n][size..] == (file[size..] + token)[..|token|];
    assert (tokens + token)[..size] == tokens && (tokens + token)[size..] == token;
    assert token <= file[size..] + token <==> (file[size..] + token)[..|token|] == token;
  }

  lemma TokensNext(s: State, front: seq<Action>, a: Action, h: nat)
    requires Indexed(s.shelf)
    ensures Tokens(s, front + [a], h) ==
            if Writes(Run(s, front), a, h) && a.ok then Tokens(s, front, h) + a.token else Tokens(s, front, h)
    ensures Debris(s, front + [a], h) ==
            if Writes(Run(s, front), a, h) && !a.ok then Debris(s, front, h) + a.written else Debris(s, front, h)
  {
    assert (front + [a])[..|front|] == front;
  }

  lemma RecordedNext(s: State, front: seq<Action>, a: Action, h: nat)
    requires Valid(s) && Blank(s, h)
    ensures var t, u := Run(s, front), Run(s, front + [a]).shelf;
            && h < |t.shelf.recs| && h < |u.recs|
            && var r, v := t.shelf.recs[h], u.recs[h];
               && r.size == |Tokens(s, front, h)| && r.size <= |r.file|
               && v.size == r.size + (if Writes(t, a, h) && a.ok then |a.token| else 0)
               && v.file == r.file + (if Writes(t, a, h) then a.token[..a.written] else [])
  {
    FileHoldsTokens(s, front, h);
    RunKeeps(s, front);
    WriteStep(Run(s, front), a, h);
    RunNext(s, front, a);
  }

  /** The recorded bytes of a file that grows by `more`, with or without taking it as a token. */
  lemma GrownFile(r: Rec, v: Rec, tokens: seq<Byte>, more: seq<Byte>, accepted: bool)
    requires |tokens| == r.size <= |r.file| && v.file == r.file + more && v.size == if accepted then r.size + |more| else r.size
    ensures v.size <= |v.file|
    ensures v.file[..v.size] == (if accepted then tokens + more else tokens) <==>
            r.file[..r.size] == tokens && (accepted ==> more <= r.file[r.size..] + more)
  {
    if accepted {
      AppendInPlace(r.file, r.size, tokens, more);
    } else {
      assert v.file[..r.size] == r.file[..r.size];
    }
  }

  /** A step keeps the recorded bytes right exactly if the token that it accepts is in place; what is
      wrong stays wrong. */
  lemma IntactStep(s: State, front: seq<Action>, a: Action, h: nat)
    requires Valid(s) && Blank(s, h)
    ensures Intact(s, front + [a], h) <==> Intact(s, front, h) && InPlace(Run(s, front), a, h)
  {
    assert Indexed(s.shelf);
    var t := Run(s, front);
    var written := Writes(t, a, h);
    assert written ==> a.Record? && a.written <= |a.token| && (a.ok ==> a.token[..a.written] == a.token);
    hide Valid, Step, Run, Tokens, Debris, Writes, Blank;
    RecordedNext(s, front, a, h);
    TokensNext(s, front, a, h);
    var more := if written then a.token[..a.written] else [];
    GrownFile(t.shelf.recs[h], Run(s, front + [a]).shelf.recs[h], Tokens(s, front, h), more, written && a.ok);
  }

  /** Over whole runs: the recorded bytes are the accepted tokens exactly if each token was in place. */
  lemma {:induction false} RecordedExact(s: State, actions: seq<Action>, h: nat)
    requires Valid(s) && Blank(s, h)
    ensures Intact(s, actions, h) <==> AllInPlace(s, actions, h)
  {
    if actions != [] {
      var front, a := actions[..|actions| - 1], actions[|actions| - 1];
      RecordedExact(s, front, h);
      IntactStep(s, front, a, h);
      assert front + [a] == actions;
    }
  }

  /** No write to the recording fails. */
  ghost predicate Accepting(actions: seq<Action>, h: nat) {
    forall k | 0 <= k < |actions| :: actions[k].Record? && actions[k].h == h ==> actions[k].ok
  }

  ghost predicate Ended(s: State, h: nat) {
    h < |s.shelf.recs| && s.shelf.recs[h].complete
  }

  /** The recorded bytes are right, and no token can come behind bytes that a failed write left. */
  ghost predicate Secure(s: State, actions: seq<Action>, h: nat)
    requires Indexed(s.shelf)
  {
    Intact(s, actions, h) && (Ended(Run(s, actions), h) || Debris(s, actions, h) == 0)
  }

  lemma SecureStep(s: State, front: seq<Action>, a: Action, h: nat)
    requires Valid(s) && Blank(s, h) && Secure(s, front, h) && (a.Record? && a.h == h ==> a.ok)
    ensures Secure(s, front + [a], h)
  {
    IntactStep(s, front, a, h);
    FileHoldsTokens(s, front, h);
    RunKeeps(s, front);
    RunNext(s, front, a);
    StepKeeps(Run(s, front), a);
    TokensNext(s, front, a, h);
    var r := Run(s, front).shelf.recs[h];
    assert Grew(r, Step(Run(s, front), a).shelf.recs[h]);
    assert !r.complete ==> r.file[r.size..] == [];
  }

  lemma {:induction false} SecureRun(s: State, front: seq<Action>, more: seq<Action>, h: nat)
    requires Valid(s) && Blank(s, h) && Secure(s, front, h) && Accepting(more, h)
    ensures Secure(s, front + more, h)
  {
    assert Indexed(s.shelf);
    hide Secure, Valid, Blank;
    AppendLastOf(front, more);
    if more != [] {
      var most, a := more[..|more| - 1], more[|more| - 1];
      SecureRun(s, front, most, h);
      SecureStep(s, front + most, a, h);
    }
  }

  lemma DebrisShifts(s: State, front: seq<Action>, h: nat)
    requires Valid(s) && Blank(s, h) && !Secure(s, front, h)
    ensures exists b: Byte :: !Intact(s, front + [Record(h, [b], 1, true)], h)
  {
    FileHoldsTokens(s, front, h);
    RunKeeps(s, front);
    var r := Run(s, front).shelf.recs[h];
    var b: Byte := if r.size < |r.file| && r.file[r.size] == 0 then 1 else 0;
    IntactStep(s, front, Record(h, [b], 1, true), h);
    if Intact(s, front, h) {
      assert [b][0] == b && (r.file[r.size..] + [b])[0] == r.file[r.size];
      assert Writes(Run(s, front), Record(h, [b], 1, true), h);
    }
  }

  /** From any point of a run on: the recorded bytes are the accepted tokens after every continuation without a
      failed write, or after every next token of one byte, exactly if they are now and the recording is
      complete or failed writes have left nothing. */
  lemma ContinuationExact(s: State, front: seq<Action>, h: nat)
    requires Valid(s) && Blank(s, h)
    ensures (forall more | Accepting(more, h) :: Intact(s, front + more, h)) <==> Secure(s, front, h)
    ensures (forall b: Byte :: Intact(s, front + [Record(h, [b], 1, true)], h)) <==> Secure(s, front, h)
  {
    if Secure(s, front, h) {
      forall more | Accepting(more, h) ensures Intact(s, front + more, h) {
        SecureRun(s, front, more, h);
      }
      forall b: Byte ensures Intact(s, front + [Record(h, [b], 1, true)], h) {
        assert Accepting([Record(h, [b], 1, true)], h);
      }
    } else {
      DebrisShifts(s, front, h);
      var b: Byte :| !Intact(s, front + [Record(h, [b], 1, true)], h);
      assert Accepting([Record(h, [b], 1, true)], h);
    }
  }

  /** End to end: a replay opened at any time that ends with the recording complete has sent exactly the accepted
      tokens if and only if every gap fitted one read and every token was in place. */
  lemma ReplaySendsTokens(s: State, before: seq<Action>, after: seq<Action>, i: nat, h: nat)
    requires Valid(s) && Blank(s, h) && Opened(Run(s, before), i, h)
    ensures var t := Run(s, before + after);
            && i < |t.replays|
            && (t.replays[i].phase == Finished ==>
                  (t.replays[i].sent == Tokens(s, before + after, h) <==>
                     WithinWindow(Run(s, before), after, i) && AllInPlace(s, before + after, h)))
            && (AllInPlace(s, before + after, h) <==> Intact(s, before + after, h))
  {
    RunConcat(s, before, after);
    RunKeeps(s, before);
    RunKeeps(s, before + after);
    ReplayExact(Run(s, before), after, i, h);
    SentRun(Run(s, before), after, i);
    FileHoldsTokens(s, before + after, h);
    RecordedExact(s, before + after, h);
    assert ValidReplay(Run(s, before + after), i);
  }

  // ---- What the conditions exclude -----------------------------------------------------------------------

  lemma RunNext(s: State, actions: seq<Action>, a: Action)
    requires Indexed(s.shelf)
    ensures Run(s, actions + [a]) == Step(Run(s, actions), a)
  {
    assert (actions + [a])[..|actions|] == actions;
  }

  const FirstStart := Start("c", "f", Outcome(true, true, true), 0, 0)

  lemma StartedOnce()
    ensures Run(Empty(1800, false), [FirstStart]) ==
            State(Shelf(1800, false, [Rec("c", "f", [], 0, false, 0)], map["c" := 0], map[]), [])
  {
    var s := Empty(1800, false);
    assert Run(s, []) == s;
    RunNext(s, [], FirstStart);
    assert [] + [FirstStart] == [FirstStart];
    assert Cleaned(s.shelf, 0).current == map[];
  }

  lemma StartedBlank()
    ensures var t := Run(Empty(1800, false), [FirstStart]);
            Valid(t) && Indexed(t.shelf) && Blank(t, 0) && t.shelf.recs == [Rec("c", "f", [], 0, false, 0)]
  {
    StartedOnce();
    RunKeeps(Empty(1800, false), [FirstStart]);
  }

  lemma TokenRecorded(token: seq<Byte>)
    requires token != []
    ensures Run(Empty(1800, false), [FirstStart, Record(0, token, |token|, true)]) ==
            State(Shelf(1800, false, [Rec("c", "f", token, |token|, false, 0)], map["c" := 0], map[]), [])
  {
    var s, a := Empty(1800, false), Record(0, token, |token|, true);
    StartedOnce();
    RunNext(s, [FirstStart], a);
    assert [FirstStart] + [a] == [FirstStart, a];
    assert token[..|token|] == token && [] + token == token;
  }

  lemma CompletedOpened(token: seq<Byte>)
    ensures var recs, current := [Rec("c", "f", token, |token|, true, 5)], map["c" := 0];
            var s := State(Shelf(1800, false, [Rec("c", "f", token, |token|, false, 0)], current, map[]), []);
            var t := State(Shelf(1800, false, recs, current, map[]), []);
            && Step(s, Complete(0, 5, true)) == t
            && Step(t, Open("c", 6, true)) == t.(replays := [Replay(0, 0, [], Polling)])
  {
    var t := Shelf(1800, false, [Rec("c", "f", token, |token|, true, 5)], map["c" := 0], map[]);
    assert Cleaned(t, 6).current == t.current;
  }

  lemma LongTokenOpened(token: seq<Byte>)
    requires token != []
    ensures var r := Rec("c", "f", token, |token|, true, 5);
            Run(Empty(1800, false), [FirstStart, Record(0, token, |token|, true), Complete(0, 5, true), Open("c", 6, true)]) ==
            State(Shelf(1800, false, [r], map["c" := 0], map[]), [Replay(0, 0, [], Polling)])
  {
    var s := Empty(1800, false);
    var two := [FirstStart, Record(0, token, |token|, true)];
    TokenRecorded(token);
    CompletedOpened(token);
    hide Step, Run;
    RunNext(s, two, Complete(0, 5, true));
    RunNext(s, two + [Complete(0, 5, true)], Open("c", 6, true));
    assert two + [Complete(0, 5, true)] + [Open("c", 6, true)] ==
           [FirstStart, Record(0, token, |token|, true), Complete(0, 5, true), Open("c", 6, true)];
  }

  lemma CutTurns(shelf: Shelf, rec: Rec)
    requires Indexed(shelf) && shelf.recs == [rec] && rec.complete && rec.size == |rec.file| > MaxRead
    ensures var s0, s1 := State(shelf, [Replay(0, 0, [], Polling)]), State(shelf, [Replay(0, 0, [], Reading(rec.size))]);
            var s2, s3 := State(shelf, [Replay(0, rec.size, rec.file[..MaxRead], Polling)]), State(shelf, [Replay(0, rec.size, rec.file[..MaxRead], Finished)]);
            Step(s0, Poll(0)) == s1 && Step(s1, Deliver(0, true)) == s2 && Step(s2, Poll(0)) == s3
  {
    hide Started, Cleaned, Written, Completed, OpenReplay;
    assert [] + rec.file[0..MaxRead] == rec.file[..MaxRead];
  }

  /** A response with a token of more than a mebibyte, replayed after its completion, loses its end. */
  lemma LongTokenIsCut()
    ensures var token := Zeros(MaxRead + 1);
            var start := Run(Empty(1800, false), [FirstStart, Record(0, token, |token|, true), Complete(0, 5, true), Open("c", 6, true)]);
            var end := Run(start, [Poll(0), Deliver(0, true), Poll(0)]);
            && Opened(start, 0, 0) && |end.replays| == 1
            && end.replays[0].phase == Finished && end.replays[0].sent == token[..MaxRead] != token
  {
    var token := Zeros(MaxRead + 1);
    LongTokenOpened(token);
    var start := Run(Empty(1800, false), [FirstStart, Record(0, token, |token|, true), Complete(0, 5, true), Open("c", 6, true)]);
    CutTurns(start.shelf, start.shelf.recs[0]);
    hide Step, Zeros, FirstStart;
    RunNext(start, [], Poll(0));
    RunNext(start, [Poll(0)], Deliver(0, true));
    RunNext(start, [Poll(0), Deliver(0, true)], Poll(0));
    assert [] + [Poll(0)] == [Poll(0)] && [Poll(0)] + [Deliver(0, true)] == [Poll(0), Deliver(0, true)];
    assert [Poll(0), Deliver(0, true)] + [Poll(0)] == [Poll(0), Deliver(0, true), Poll(0)];
  }

  lemma RecordStep(s: State, rec: Rec, token: seq<Byte>, written: nat, ok: bool)
    requires Indexed(s.shelf) && s.shelf.recs == [rec] && !rec.complete && token != []
    requires written <= |token| && (ok ==> written == |token|)
    ensures var a := Record(0, token, written, ok);
            && Writes(s, a, 0)
            && Step(s, a) == s.(shelf := s.shelf.(recs := [rec.(file := rec.file + token[..written], size := if ok then rec.size + written else rec.size)]))
  {
    assert [rec][0 := Appended(rec, token, written, ok)] == [Appended(rec, token, written, ok)];
  }

  lemma OneStep(t: State, a: Action, h: nat)
    requires Indexed(t.shelf)
    ensures Run(t, [a]) == Step(t, a)
    ensures Tokens(t, [a], h) == if Writes(t, a, h) && a.ok then a.token else []
    ensures Debris(t, [a], h) == if Writes(t, a, h) && !a.ok then a.written else 0
  {
    assert [a][..0] == [] && Run(t, []) == t && Tokens(t, [], h) == [] && Debris(t, [], h) == 0;
    hide Step, Writes;
  }

  lemma TwoSteps(t: State, a: Action, b: Action, h: nat)
    requires Indexed(t.shelf)
    ensures Run(t, [a, b]) == Step(Run(t, [a]), b)
    ensures Tokens(t, [a, b], h) ==
            if Writes(Run(t, [a]), b, h) && b.ok then Tokens(t, [a], h) + b.token else Tokens(t, [a], h)
    ensures Debris(t, [a, b], h) ==
            if Writes(Run(t, [a]), b, h) && !b.ok then Debris(t, [a], h) + b.written else Debris(t, [a], h)
  {
    hide Step, Run, Tokens, Debris, Writes;
    assert [a] + [b] == [a, b];
    RunNext(t, [a], b);
    TokensNext(t, [a], b, h);
  }

  lemma TokenBehindHalf(t: State)
    requires Indexed(t.shelf) && t.shelf.recs == [Rec("c", "f", [], 0, false, 0)]
    ensures var actions := [Record(0, [1, 2], 1, false), Record(0, [3], 1, true)];
            Tokens(t, actions, 0) == [3] && Run(t, actions).shelf.recs == [Rec("c", "f", [1, 3], 1, false, 0)]
  {
    var half, token := Record(0, [1, 2], 1, false), Record(0, [3], 1, true);
    hide Run, Tokens, Debris, Writes, Step, Enabled;
    OneStep(t, half, 0);
    TwoSteps(t, half, token, 0);
    assert [3][..1] == [3] && [1, 2][..1] == [1] && [] + [1] == [1] && [1] + [3] == [1, 3] && [] + [3] == [3];
    RecordStep(t, Rec("c", "f", [], 0, false, 0), [1, 2], 1, false);
    RecordStep(Step(t, half), Rec("c", "f", [1], 0, false, 0), [3], 1, true);
  }

  /** After a write that failed half-way, the recorded bytes are not the accepted tokens. */
  lemma DebrisIsRecorded()
    ensures var start, actions := Run(Empty(1800, false), [FirstStart]), [Record(0, [1, 2], 1, false), Record(0, [3], 1, true)];
            var recs := Run(start, actions).shelf.recs;
            && |recs| == 1 && recs[0].file == [1, 3] && recs[0].size == 1
            && Tokens(start, actions, 0) == [3]
  {
    StartedBlank();
    var start := Run(Empty(1800, false), [FirstStart]);
    hide Valid, FirstStart, Empty, Run, Tokens;
    TokenBehindHalf(start);
  }

  lemma HalfBehindToken(t: State)
    requires Indexed(t.shelf) && t.shelf.recs == [Rec("c", "f", [], 0, false, 0)]
    ensures var actions := [Record(0, [3], 1, true), Record(0, [1, 2], 1, false)];
            && Debris(t, actions, 0) == 1 && Tokens(t, actions, 0) == [3]
            && Run(t, actions).shelf.recs == [Rec("c", "f", [3, 1], 1, false, 0)]
  {
    var token, half := Record(0, [3], 1, true), Record(0, [1, 2], 1, false);
    OneStep(t, token, 0);
    TwoSteps(t, token, half, 0);
    hide Run, Tokens, Debris, Writes, Step, Enabled;
    assert [3][..1] == [3] && [1, 2][..1] == [1] && [] + [3] == [3] && [3] + [1] == [3, 1];
    RecordStep(t, Rec("c", "f", [], 0, false, 0), [3], 1, true);
    RecordStep(Step(t, token), Rec("c", "f", [3], 1, false, 0), [1, 2], 1, false);
  }

  /** What a failed write left need not shift anything: behind the last token it is never sent. */
  lemma DebrisBehind()
    ensures var start, actions := Run(Empty(1800, false), [FirstStart]), [Record(0, [3], 1, true), Record(0, [1, 2], 1, false)];
            && Valid(start) && Blank(start, 0)
            && Debris(start, actions, 0) == 1 && Intact(start, actions, 0) && !Ended(Run(start, actions), 0)
  {
    StartedBlank();
    var start := Run(Empty(1800, false), [FirstStart]);
    hide Valid, FirstStart, Empty, Run, Tokens, Debris;
    HalfBehindToken(start);
    assert [3, 1][..1] == [3];
  }
}
