/** Replays of a recording that is still being written, over every interleaving of recorders,
    completions, lookups, clean-ups and replays (internal/resumer/temp_file_store.go:119-184, 242-304, 330-441). */
module Replay {
  import opened Wrappers
  import opened Bytes
  import opened Resumer

  const MaxRead: nat := 1048576

  /** The replay loop is about to poll, has polled `size` and is about to read, is done, or gave up. */
  datatype Phase = Polling | Reading(size: nat) | Finished | Stopped

  datatype Replay = Replay(rec: nat, offset: nat, sent: seq<Byte>, phase: Phase)

  function ReadRange(file: seq<Byte>, offset: nat, length: nat): seq<Byte>
    requires offset <= |file|
  {
    file[offset..Min(offset + Min(length, MaxRead), |file|)]
  }

  function Polled(r: Replay, rec: Rec): Replay {
    if rec.size > r.offset then r.(phase := Reading(rec.size))
    else if rec.complete then r.(phase := Finished)
    else r
  }

  /** Reads up to the polled size and sends it; `ok` if neither the read failed nor the caller left. */
  function Delivered(r: Replay, rec: Rec, ok: bool): Replay
    requires r.phase.Reading? && r.offset < r.phase.size && r.offset <= |rec.file|
  {
    if !ok then r.(phase := Stopped)
    else r.(offset := r.phase.size, sent := r.sent + ReadRange(rec.file, r.offset, r.phase.size - r.offset), phase := Polling)
  }

  /** One turn of the loop on a recording that does not change during the turn. */
  function Turn(r: Replay, rec: Rec): Replay
    requires r.phase == Polling && rec.size <= |rec.file|
  {
    var p := Polled(r, rec);
    if p.phase.Reading? then Delivered(p, rec, true) else p
  }

  ghost predicate Measured(views: seq<Rec>) {
    forall i | 0 <= i < |views| :: views[i].size <= |views[i].file|
  }

  ghost function Turns(h: nat, views: seq<Rec>): (r: Replay)
    requires Measured(views)
  {
    if views == [] then Replay(h, 0, [], Polling)
    else
      var r := Turns(h, views[..|views| - 1]);
      if r.phase == Polling then Turn(r, views[|views| - 1]) else r
  }

  /** The replay loop; `views` are the states of the recording at its successive turns, and the caller
      leaves after the last of them. */
  method ReplayFromFile(ghost h: nat, views: seq<Rec>) returns (sent: seq<Byte>, done: bool)
    requires Measured(views)
    ensures sent == Turns(h, views).sent
    ensures done <==> Turns(h, views).phase == Finished
  {
    var offset: nat := 0;
    sent, done := [], false;
    ghost var r := Replay(h, 0, [], Polling);
    for i := 0 to |views|
      invariant !done && r == Turns(h, views[..i]) && r == Replay(h, offset, sent, Polling)
    {
      var rec := views[i];
      assert views[..i + 1][..i] == views[..i];
      var size, complete := rec.size, rec.complete;
      r := Turn(r, rec);
      if size > offset {
        var chunk := ReadRange(rec.file, offset, size - offset);
        offset := size;
        if |chunk| > 0 {
          sent := sent + chunk;
        }
        continue;
      }
      if complete {
        done := true;
        FinishedStays(h, views, i + 1);
        return;
      }
    }
    assert views[..|views|] == views;
  }

  lemma {:induction false} FinishedStays(h: nat, views: seq<Rec>, n: nat)
    requires Measured(views) && n <= |views| && Turns(h, views[..n]).phase != Polling
    ensures Turns(h, views) == Turns(h, views[..n])
  {
    if n < |views| {
      var front := views[..|views| - 1];
      assert front[..n] == views[..n];
      FinishedStays(h, front, n);
    } else {
      assert views[..n] == views;
    }
  }

  // ---- The machine ------------------------------------------------------------------------------

  datatype State = State(shelf: Shelf, replays: seq<Replay>)

  datatype Action =
    | Start(conv: string, path: string, o: Outcome, now: int, at: int)
    | Record(h: nat, token: seq<Byte>, written: nat, ok: bool)
    | Complete(h: nat, at: int, removed: bool)
    | Check(now: int)
    | Open(conv: string, now: int, found: bool)
    | Poll(i: nat)
    | Deliver(i: nat, ok: bool)
    | Leave(i: nat)

  /** The action can happen: handles were handed out, and replays are in the right phase. */
  ghost predicate Enabled(s: State, a: Action) {
    match a
    case Start(_, _, _, _, _) => true
    case Record(h, token, written, ok) => h < |s.shelf.recs| && written <= |token| && (ok ==> written == |token|)
    case Complete(h, _, _) => h < |s.shelf.recs|
    case Check(_) => true
    case Open(_, _, _) => true
    case Poll(i) => i < |s.replays| && s.replays[i].phase == Polling && s.replays[i].rec < |s.shelf.recs|
    case Deliver(i, _) =>
      && i < |s.replays| && s.replays[i].phase.Reading? && s.replays[i].offset < s.replays[i].phase.size
      && s.replays[i].rec < |s.shelf.recs| && s.replays[i].offset <= |s.shelf.recs[s.replays[i].rec].file|
    case Leave(i) => i < |s.replays|
  }

  function OpenReplay(s: State, conv: string, now: int, found: bool): State
    requires Indexed(s.shelf)
  {
    var shelf := Cleaned(s.shelf, now);
    State(shelf, if conv in shelf.current && found then s.replays + [Replay(shelf.current[conv], 0, [], Polling)] else s.replays)
  }

  ghost function Step(s: State, a: Action): State
    requires Indexed(s.shelf)
  {
    if !Enabled(s, a) then s
    else
      match a
      case Start(conv, path, o, now, at) => s.(shelf := Started(s.shelf, conv, path, o, now, at))
      case Record(h, token, written, ok) => s.(shelf := Written(s.shelf, h, token, written, ok))
      case Complete(h, at, removed) => s.(shelf := Completed(s.shelf, h, at, removed))
      case Check(now) => s.(shelf := Cleaned(s.shelf, now))
      case Open(conv, now, found) => OpenReplay(s, conv, now, found)
      case Poll(i) => s.(replays := s.replays[i := Polled(s.replays[i], s.shelf.recs[s.replays[i].rec])])
      case Deliver(i, ok) => s.(replays := s.replays[i := Delivered(s.replays[i], s.shelf.recs[s.replays[i].rec], ok)])
      case Leave(i) => if s.replays[i].phase == Finished then s else s.(replays := s.replays[i := s.replays[i].(phase := Stopped)])
  }

  ghost function Run(s: State, actions: seq<Action>): State
    requires Indexed(s.shelf)
    ensures Indexed(Run(s, actions).shelf)
  {
    if actions == [] then s else Step(Run(s, actions[..|actions| - 1]), actions[|actions| - 1])
  }
}
