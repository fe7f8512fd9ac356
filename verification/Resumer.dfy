/** Response recordings and their replays (internal/resumer/temp_file_store.go).

    A temp file is the sequence of its bytes.  The clock, the outcome of file and locator calls and the
    snapshots that a replay takes are parameters.  A locator is the name of the recording's file. */
module Resumer {
  import opened Bytes

  /** `size` counts the bytes that were accepted; a failed write may leave more in the file. */
  datatype Rec = Rec(conversation: string, path: string, file: seq<Byte>, size: nat, complete: bool, completedAt: int)

  /** All recordings ever handed to a recorder, by handle; the handle of the latest of each
      conversation that is still kept; and the published locators. */
  datatype Shelf = Shelf(retention: int, shared: bool, recs: seq<Rec>, current: map<string, nat>, locators: map<string, string>)

  ghost predicate Indexed(s: Shelf) {
    forall c | c in s.current :: s.current[c] < |s.recs|
  }

  // ---- What the operations do -----------------------------------------------------------------

  predicate Expired(r: Rec, now: int, retention: int) {
    r.complete && now - r.completedAt >= retention
  }

  function Cleaned(s: Shelf, now: int): (r: Shelf)
    requires Indexed(s)
    ensures Indexed(r) && r == s.(current := r.current)
  {
    if s.retention <= 0 then s
    else s.(current := map c | c in s.current && !Expired(s.recs[s.current[c]], now, s.retention) :: s.current[c])
  }

  lemma CleanedKeeps(s: Shelf, now: int)
    requires Indexed(s)
    ensures Cleaned(s, now).current == s.current - (s.current.Keys - Cleaned(s, now).current.Keys)
  {
  }

  function Appended(r: Rec, token: seq<Byte>, written: nat, ok: bool): Rec
    requires written <= |token|
  {
    if token == [] || r.complete then r
    else r.(file := r.file + token[..written], size := if ok then r.size + written else r.size)
  }

  function Closed(r: Rec, at: int): Rec {
    if r.complete then r else r.(complete := true, completedAt := at)
  }

  function Written(s: Shelf, h: nat, token: seq<Byte>, written: nat, ok: bool): Shelf
    requires h < |s.recs| && written <= |token|
  {
    s.(recs := s.recs[h := Appended(s.recs[h], token, written, ok)])
  }

  function Completed(s: Shelf, h: nat, at: int, removed: bool): Shelf
    requires h < |s.recs|
  {
    s.(recs := s.recs[h := Closed(s.recs[h], at)],
       locators := if !s.recs[h].complete && s.shared && removed then s.locators - {s.recs[h].conversation} else s.locators)
  }

  /** The outcome of the calls that starting a recorder makes. */
  datatype Outcome = Outcome(removed: bool, created: bool, upserted: bool)

  function Superseded(s: Shelf, conv: string, at: int, removed: bool): (r: Shelf)
    requires Indexed(s)
    ensures Indexed(r)
  {
    if conv in s.current then Completed(s, s.current[conv], at, removed) else s
  }

  predicate Starts(s: Shelf, o: Outcome) {
    o.created && (s.shared ==> o.upserted)
  }

  function Installed(s: Shelf, conv: string, path: string, o: Outcome): (r: Shelf)
    requires Indexed(s)
    ensures Indexed(r) && (!o.created ==> r == s)
  {
    if !o.created then s
    else if s.shared && !o.upserted then s.(current := s.current - {conv})
    else s.(recs := s.recs + [Rec(conv, path, [], 0, false, 0)], current := s.current[conv := |s.recs|],
            locators := if s.shared then s.locators[conv := path] else s.locators)
  }

  function Started(s: Shelf, conv: string, path: string, o: Outcome, now: int, at: int): (r: Shelf)
    requires Indexed(s)
    ensures Indexed(r)
  {
    Installed(Superseded(Cleaned(s, now), conv, at, o.removed), conv, path, o)
  }

  predicate InProgress(s: Shelf, conv: string)
    requires Indexed(s)
  {
    conv in s.current && !s.recs[s.current[conv]].complete
  }

  // ---- The objects -------------------------------------------------------------------------------

  class Recording {
    const conversation: string
    const path: string
    var file: seq<Byte>
    var open: bool
    var size: nat
    var complete: bool
    var completedAt: int

    constructor (conversation: string, path: string)
      ensures Value() == Rec(conversation, path, [], 0, false, 0) && open
    {
      this.conversation, this.path := conversation, path;
      file, open, size, complete, completedAt := [], true, 0, false, 0;
    }

    ghost function Value(): Rec
      reads this
    {
      Rec(conversation, path, file, size, complete, completedAt)
    }
  }

  ghost function Values(rs: seq<Recording>): (r: seq<Rec>)
    reads rs
    ensures |r| == |rs| && forall i | 0 <= i < |r| :: r[i] == rs[i].Value()
  {
    seq(|rs|, i requires 0 <= i < |rs| reads rs => rs[i].Value())
  }

  ghost predicate Sound(issued: seq<Recording>)
    reads issued
  {
    && (forall i, j | 0 <= i < j < |issued| :: issued[i] != issued[j])
    && (forall r | r in issued :: r.open == !r.complete)
  }

  ghost predicate Matching(handles: map<string, nat>, recordings: map<string, Recording>, issued: seq<Recording>) {
    && handles.Keys == recordings.Keys
    && (forall c | c in handles :: handles[c] < |issued| && issued[handles[c]] == recordings[c])
  }

  lemma KeepMatching(handles: map<string, nat>, all: map<string, Recording>, kept: map<string, nat>, rest: map<string, Recording>,
                     issued: seq<Recording>)
    requires Matching(handles, all, issued) && forall c :: c in rest <==> c in kept
    requires forall c | c in kept :: c in handles && kept[c] == handles[c]
    requires forall c | c in rest :: c in all && rest[c] == all[c]
    ensures Matching(kept, rest, issued)
  {
    assert kept.Keys == rest.Keys;
  }

  lemma IssueMatching(handles: map<string, nat>, recordings: map<string, Recording>, issued: seq<Recording>, conv: string, rec: Recording)
    requires Matching(handles, recordings, issued)
    ensures Matching(handles[conv := |issued|], recordings[conv := rec], issued + [rec])
    ensures Matching(handles - {conv}, recordings[conv := rec] - {conv}, issued)
  {
  }

  lemma IssueSound(issued: seq<Recording>, rec: Recording)
    requires Sound(issued) && rec !in issued && rec.open == !rec.complete
    ensures Sound(issued + [rec])
  {
  }

  lemma ExpiredIs(rec: Recording, now: int, retention: int)
    ensures Expired(rec.Value(), now, retention) <==> rec.complete && now - rec.completedAt >= retention
  {
  }

  class Store {
    const retention: int
    const shared: bool
    var recordings: map<string, Recording>
    var locators: map<string, string>
    ghost var issued: seq<Recording>
    ghost var handles: map<string, nat>

    ghost predicate Valid()
      reads this, issued
    {
      Sound(issued) && Matching(handles, recordings, issued)
    }

    ghost function Value(): Shelf
      reads this, issued
    {
      Shelf(retention, shared, Values(issued), handles, locators)
    }

    constructor (retention: int, shared: bool)
      ensures Valid() && Value() == Shelf(if retention <= 0 then 1800 else retention, shared, [], map[], map[])
    {
      this.retention := if retention <= 0 then 1800 else retention;
      this.shared := shared;
      recordings, locators, issued, handles := map[], map[], [], map[];
    }

    method SweepExpired(now: int)
      modifies this`recordings
      ensures forall c :: c in recordings <==>
                c in old(recordings) && (retention <= 0 || !Expired(old(recordings)[c].Value(), now, retention))
      ensures forall c | c in recordings :: recordings[c] == old(recordings)[c]
    {
      if retention <= 0 {
        return;
      }
      var conversations := recordings.Keys;
      ghost var all := recordings;
      ghost var lasting := set c | c in all && !Expired(all[c].Value(), now, retention);
      while conversations != {}
        invariant conversations <= all.Keys
        invariant recordings == map c | c in all && (c in conversations || c in lasting) :: all[c]
      {
        var conversation :| conversation in conversations;
        var rec := recordings[conversation];
        ExpiredIs(rec, now, retention);
        conversations := conversations - {conversation};
        if !rec.complete {
          continue;
        }
        if now - rec.completedAt < retention {
          continue;
        }
        recordings := recordings - {conversation};
      }
    }

    /** The expired recordings are the ones that the shelf drops. */
    lemma LastingIs(now: int)
      requires Valid()
      ensures Indexed(Value())
      ensures forall c | c in recordings :: c in handles &&
                (c in Cleaned(Value(), now).current <==> retention <= 0 || !Expired(recordings[c].Value(), now, retention))
    {
    }

    method SweepRecordings(now: int)
      requires Valid()
      modifies this`recordings
      ensures Indexed(old(Value()))
      ensures forall c :: c in recordings <==> c in Cleaned(old(Value()), now).current
      ensures forall c | c in recordings :: recordings[c] == old(recordings)[c]
    {
      LastingIs(now);
      hide *;
      SweepExpired(now);
    }

    method CleanupExpired(now: int)
      requires Valid()
      modifies this`recordings, this`handles
      ensures Valid() && Indexed(old(Value())) && Value() == Cleaned(old(Value()), now)
    {
      ghost var all, before := recordings, Value();
      hide Cleaned, Sound;
      SweepRecordings(now);
      ghost var kept := Cleaned(before, now).current;
      assert kept == handles - (handles.Keys - kept.Keys) by { CleanedKeeps(before, now); }
      KeepMatching(handles, all, kept, recordings, issued);
      hide Matching;
      handles := kept;
    }

    method CompleteLocked(rec: Recording, at: int, removed: bool, ghost h: nat)
      requires Valid() && h < |issued| && issued[h] == rec
      modifies this`locators, rec
      ensures Valid() && Value() == Completed(old(Value()), h, at, removed)
    {
      if rec.complete {
        return;
      }
      rec.complete, rec.completedAt, rec.open := true, at, false;
      if shared && removed {
        locators := locators - {rec.conversation};
      }
    }

    method Supersede(conv: string, at: int, removed: bool)
      requires Valid()
      modifies this`locators, issued
      ensures Valid() && Indexed(old(Value())) && Value() == Superseded(old(Value()), conv, at, removed)
    {
      if conv in recordings {
        CompleteLocked(recordings[conv], at, removed, handles[conv]);
      }
    }

    /** Keeps the new recording, unless its locator cannot be published. */
    method Install(conv: string, path: string, rec: Recording, o: Outcome)
      requires Valid() && Indexed(Value()) && rec !in issued && rec.open && rec.Value() == Rec(conv, path, [], 0, false, 0) && o.created
      modifies this
      ensures Valid() && Value() == Installed(old(Value()), conv, path, o)
      ensures Starts(old(Value()), o) ==> issued == old(issued) + [rec]
    {
      hide Sound, Matching;
      IssueMatching(handles, recordings, issued, conv, rec);
      IssueSound(issued, rec);
      recordings := recordings[conv := rec];
      if shared {
        if !o.upserted {
          recordings, handles := recordings - {conv}, handles - {conv};
          assert Values(issued) == old(Values(issued));
          return;
        }
        locators := locators[conv := path];
      }
      handles := handles[conv := |issued|];
      issued := issued + [rec];
      assert Values(issued) == old(Values(issued)) + [rec.Value()];
    }

    /** Starts a recorder, completing the conversation's recording first. */
    method RecorderWithAddress(conv: string, path: string, o: Outcome, now: int, at: int) returns (recorder: Recorder?)
      requires Valid()
      modifies this, issued
      ensures Valid() && Indexed(old(Value())) && Value() == Started(old(Value()), conv, path, o, now, at)
      ensures recorder != null <==> Starts(old(Value()), o)
      ensures recorder != null ==> recorder.Valid() && recorder.store == this && recorder.h == |old(issued)|
    {
      recorder := null;
      hide Cleaned, Superseded, Completed, Installed;
      CleanupExpired(now);
      Supersede(conv, at, o.removed);
      if !o.created {
        return;
      }
      var rec := new Recording(conv, path);
      Install(conv, path, rec, o);
      if shared && !o.upserted {
        return;
      }
      recorder := new Recorder(this, rec, |issued| - 1);
    }

    method HasResponseInProgress(conv: string, now: int) returns (b: bool)
      requires Valid()
      modifies this`recordings, this`handles
      ensures Valid() && Indexed(old(Value())) && Value() == Cleaned(old(Value()), now)
      ensures b == InProgress(Value(), conv)
    {
      CleanupExpired(now);
      if conv !in recordings {
        return false;
      }
      return !recordings[conv].complete;
    }
  }

  class Recorder {
    const store: Store
    const rec: Recording
    ghost const h: nat
    var once: bool

    ghost predicate Valid()
      reads this, store, store.issued
    {
      store.Valid() && h < |store.issued| && store.issued[h] == rec && (once ==> rec.complete)
    }

    constructor (store: Store, rec: Recording, ghost h: nat)
      requires store.Valid() && h < |store.issued| && store.issued[h] == rec
      ensures Valid() && this.store == store && this.rec == rec && this.h == h
    {
      this.store, this.rec, this.h, once := store, rec, h, false;
    }

    method Record(token: seq<Byte>, written: nat, ok: bool)
      requires Valid() && written <= |token| && (ok ==> written == |token|)
      modifies rec
      ensures Valid() && store.Value() == Written(old(store.Value()), h, token, written, ok)
    {
      if token == [] {
        return;
      }
      if rec.complete || !rec.open {
        return;
      }
      rec.file := rec.file + token[..written];
      if !ok {
        return;
      }
      rec.size := rec.size + written;
    }

    method Complete(at: int, removed: bool)
      requires Valid()
      modifies this`once, store`locators, rec
      ensures Valid() && store.Value() == Completed(old(store.Value()), h, at, removed)
    {
      if !once {
        once := true;
        store.CompleteLocked(rec, at, removed, h);
      }
    }
  }
}
