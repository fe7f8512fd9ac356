/** Materialized fork ancestry (internal/model/ancestry.go) and what it means for a reader.

    An entry is identified with its place in the entry order (created_at, seq, id).  The reader and
    the anchor check are those of the PostgreSQL store. */
module Ancestry {
  import opened Wrappers

  datatype Segment = Segment(conversationID: string, depth: int, beforeEntryID: Option<nat>, forkedAtEntryID: Option<nat>)

  // ---- Building the rows of a new conversation -----------------------------------------------

  /** The copy of a parent's row for a fork at `anchor`, which the ancestor at `ownerDepth` owns. */
  function Copy(row: Segment, anchor: Option<nat>, ownerDepth: Option<int>): Segment {
    var before :=
      if anchor.Some? && ownerDepth.Some? && row.depth < ownerDepth.value then None
      else if anchor.Some? && ownerDepth.Some? && row.depth == ownerDepth.value then anchor
      else row.beforeEntryID;
    Segment(row.conversationID, row.depth + 1, before, if row.depth == 0 then anchor else None)
  }

  function Self(convID: string): Segment {
    Segment(convID, 0, None, None)
  }

  function ForkRows(convID: string, parentRows: seq<Segment>, anchor: Option<nat>, ownerDepth: Option<int>): seq<Segment> {
    [Self(convID)] + seq(|parentRows|, i requires 0 <= i < |parentRows| => Copy(parentRows[i], anchor, ownerDepth))
  }

  ghost predicate NamesAll(rows: seq<Segment>) {
    forall i | 0 <= i < |rows| :: rows[i].conversationID != ""
  }

  method BuildConversationAncestrySegments(convID: string, parentRows: seq<Segment>, forkedAtEntryID: Option<nat>,
                                           anchorOwnerDepth: Option<int>)
    returns (r: Result<seq<Segment>>)
    ensures r.Ok? <==> NamesAll(parentRows)
    ensures r.Ok? ==> r.value == ForkRows(convID, parentRows, forkedAtEntryID, anchorOwnerDepth)
  {
    var rows := [Segment(convID, 0, None, None)];
    if |parentRows| == 0 {
      return Ok(rows);
    }
    for i := 0 to |parentRows|
      invariant NamesAll(parentRows[..i])
      invariant rows == ForkRows(convID, parentRows[..i], forkedAtEntryID, anchorOwnerDepth)
    {
      var parentRow := parentRows[i];
      if parentRow.conversationID == "" {
        return Err("parent conversation ancestry contains an empty conversation id");
      }
      var beforeEntryID := parentRow.beforeEntryID;
      if forkedAtEntryID.Some? && anchorOwnerDepth.Some? {
        if parentRow.depth < anchorOwnerDepth.value {
          beforeEntryID := None;
        } else if parentRow.depth == anchorOwnerDepth.value {
          beforeEntryID := forkedAtEntryID;
        }
      }
      var directForkedAtEntryID: Option<nat> := None;
      if parentRow.depth == 0 {
        directForkedAtEntryID := forkedAtEntryID;
      }
      rows := rows + [Segment(parentRow.conversationID, parentRow.depth + 1, beforeEntryID, directForkedAtEntryID)];
    }
    assert parentRows[..|parentRows|] == parentRows;
    return Ok(rows);
  }

  // ---- Readers ------------------------------------------------------------------------------

  datatype Entry = Entry(key: nat, conversationID: string)

  /** A row shows the entries of its conversation: all of them at depth 0, those strictly before the
      boundary further up, and none without a boundary. */
  predicate Shows(row: Segment, e: Entry) {
    && row.conversationID == e.conversationID
    && (row.depth == 0 || (row.beforeEntryID.Some? && e.key < row.beforeEntryID.value))
  }

  predicate VisibleTo(rows: seq<Segment>, e: Entry) {
    exists i :: 0 <= i < |rows| && Shows(rows[i], e)
  }

  /** The visible entries, in entry order. */
  function VisibleIn(entries: seq<Entry>, rows: seq<Segment>): seq<Entry> {
    if entries == [] then []
    else
      var last := entries[|entries| - 1];
      VisibleIn(entries[..|entries| - 1], rows) + if VisibleTo(rows, last) then [last] else []
  }

  /** The entries strictly before `key`. */
  function CutBefore(entries: seq<Entry>, key: nat): seq<Entry> {
    if entries == [] then []
    else
      var last := entries[|entries| - 1];
      CutBefore(entries[..|entries| - 1], key) + if last.key < key then [last] else []
  }

  /** The entries that `c` does not own. */
  function NotOwnedBy(entries: seq<Entry>, c: string): seq<Entry> {
    if entries == [] then []
    else
      var last := entries[|entries| - 1];
      NotOwnedBy(entries[..|entries| - 1], c) + if last.conversationID != c then [last] else []
  }

  /** The depth of the ancestor that owns a visible entry, if the entry is visible. */
  method AnchorDepth(rows: seq<Segment>, e: Entry) returns (depth: Option<int>)
    requires WellFormed(rows)
    ensures depth == OwnerDepth(rows, e)
  {
    for i := 0 to |rows|
      invariant forall j | 0 <= j < i :: rows[j].conversationID != e.conversationID
    {
      var row := rows[i];
      if row.conversationID != e.conversationID {
        continue;
      }
      if row.depth > 0 {
        if row.beforeEntryID.None? {
          return None;
        }
        if e.key >= row.beforeEntryID.value {
          return None;
        }
      }
      assert Shows(rows[i], e);
      return Some(row.depth);
    }
    return None;
  }

  /** Rows of one conversation: one per depth, each for another conversation. */
  ghost predicate WellFormed(rows: seq<Segment>) {
    && |rows| > 0
    && (forall i | 0 <= i < |rows| :: rows[i].depth == i && rows[i].conversationID != "")
    && (forall i, j | 0 <= i < j < |rows| :: rows[i].conversationID != rows[j].conversationID)
  }

  ghost function OwnerDepth(rows: seq<Segment>, e: Entry): (r: Option<int>)
    ensures r.Some? <==> VisibleTo(rows, e)
    ensures r.Some? ==> 0 <= r.value < |rows| && Shows(rows[r.value], e)
  {
    if VisibleTo(rows, e) then
      var i :| 0 <= i < |rows| && Shows(rows[i], e); Some(i)
    else None
  }

  // ---- Histories of forks and appends -----------------------------------------------------------

  /** The entries of a conversation group in entry order, and the ancestry rows of each conversation. */
  datatype Group = Group(entries: seq<Entry>, rows: map<string, seq<Segment>>)

  datatype Operation =
    | Create(convID: string)
    | Append(convID: string, key: nat)
    | Fork(convID: string, parentID: string, anchor: Option<Entry>)

  ghost function Visible(g: Group, convID: string): seq<Entry>
    requires convID in g.rows
  {
    VisibleIn(g.entries, g.rows[convID])
  }

  ghost predicate HasKey(entries: seq<Entry>, key: nat) {
    exists e | e in entries :: e.key == key
  }

  /** Puts an entry at its place in the entry order. */
  function Insert(entries: seq<Entry>, e: Entry): seq<Entry> {
    if entries == [] || entries[|entries| - 1].key < e.key then entries + [e]
    else Insert(entries[..|entries| - 1], e) + [entries[|entries| - 1]]
  }

  /** An operation is accepted if its conversations exist or are new, as the case may be, a new entry
      has a place of its own in the entry order, and an anchor is visible in the parent. */
  ghost predicate Accepted(g: Group, op: Operation) {
    match op
    case Create(c) => c != "" && c !in g.rows
    case Append(c, key) => c in g.rows && !HasKey(g.entries, key)
    case Fork(c, p, anchor) =>
      && c != "" && c !in g.rows && p in g.rows
      && (anchor.Some? ==> anchor.value in g.entries && VisibleTo(g.rows[p], anchor.value))
  }

  ghost function Step(g: Group, op: Operation): Group {
    if !Accepted(g, op) then g
    else match op
      case Create(c) => g.(rows := g.rows[c := ForkRows(c, [], None, None)])
      case Append(c, key) => g.(entries := Insert(g.entries, Entry(key, c)))
      case Fork(c, p, anchor) =>
        var id := if anchor.Some? then Some(anchor.value.key) else None;
        var depth := if anchor.Some? then OwnerDepth(g.rows[p], anchor.value) else None;
        g.(rows := g.rows[c := ForkRows(c, g.rows[p], id, depth)])
  }

  ghost function Run(g: Group, ops: seq<Operation>): Group
    decreases |ops|
  {
    if ops == [] then g else Run(Step(g, ops[0]), ops[1..])
  }

  const Empty := Group([], map[])

  /** A new entry comes last in the entry order, as when the clocks that stamp entries agree. */
  ghost predicate OnTime(g: Group, op: Operation) {
    op.Append? ==> forall e | e in g.entries :: e.key < op.key
  }

  ghost predicate RunOnTime(g: Group, ops: seq<Operation>)
    decreases |ops|
  {
    ops == [] || (OnTime(g, ops[0]) && RunOnTime(Step(g, ops[0]), ops[1..]))
  }

  // ---- What every history keeps -----------------------------------------------------------------

  ghost predicate SortedEntries(entries: seq<Entry>) {
    forall i, j | 0 <= i < j < |entries| :: entries[i].key < entries[j].key
  }

  ghost predicate BoundsExist(entries: seq<Entry>, rows: seq<Segment>) {
    forall j | 0 <= j < |rows| && rows[j].beforeEntryID.Some? :: HasKey(entries, rows[j].beforeEntryID.value)
  }

  ghost predicate ValidRows(g: Group, c: string, rows: seq<Segment>) {
    && WellFormed(rows) && rows[0] == Self(c)
    && BoundsExist(g.entries, rows)
    && (forall i | 0 <= i < |rows| :: rows[i].conversationID in g.rows)
  }

  ghost predicate Valid(g: Group) {
    && SortedEntries(g.entries)
    && (forall e | e in g.entries :: e.conversationID in g.rows)
    && (forall c | c in g.rows :: ValidRows(g, c, g.rows[c]))
  }

  function KeyOf(anchor: Option<Entry>): Option<nat> {
    if anchor.Some? then Some(anchor.value.key) else None
  }

  lemma {:induction false} InsertSorted(entries: seq<Entry>, e: Entry)
    requires SortedEntries(entries) && !HasKey(entries, e.key)
    ensures SortedEntries(Insert(entries, e))
    ensures forall d :: d in Insert(entries, e) <==> d in entries || d == e
  {
    if entries != [] {
      var front, last := entries[..|entries| - 1], entries[|entries| - 1];
      assert last in entries && entries == front + [last];
      if last.key >= e.key {
        assert !HasKey(front, e.key);
        InsertSorted(front, e);
        var r := Insert(front, e);
        forall i | 0 <= i < |r| ensures r[i].key < last.key {
          assert r[i] in r;
        }
      }
    }
  }

  lemma ForkWellFormed(c: string, parent: seq<Segment>, key: Option<nat>, depth: Option<int>)
    requires WellFormed(parent) && c != "" && forall i | 0 <= i < |parent| :: parent[i].conversationID != c
    ensures WellFormed(ForkRows(c, parent, key, depth))
  {
    var rows := ForkRows(c, parent, key, depth);
    forall i | 0 <= i < |rows| ensures rows[i].depth == i && rows[i].conversationID != "" {
      assert i > 0 ==> rows[i] == Copy(parent[i - 1], key, depth);
    }
    forall i, j | 0 <= i < j < |rows| ensures rows[i].conversationID != rows[j].conversationID {
      assert rows[j] == Copy(parent[j - 1], key, depth);
      assert i > 0 ==> rows[i] == Copy(parent[i - 1], key, depth);
    }
  }

  lemma ForkValidRows(g: Group, c: string, p: string, anchor: Option<Entry>)
    requires Valid(g) && Accepted(g, Fork(c, p, anchor))
    ensures ValidRows(Step(g, Fork(c, p, anchor)), c, Step(g, Fork(c, p, anchor)).rows[c])
  {
    var h, parent := Step(g, Fork(c, p, anchor)), g.rows[p];
    assert ValidRows(g, p, parent);
    var depth := if anchor.Some? then OwnerDepth(parent, anchor.value) else None;
    var rows := ForkRows(c, parent, KeyOf(anchor), depth);
    ForkWellFormed(c, parent, KeyOf(anchor), depth);
    forall i | 0 <= i < |rows|
      ensures rows[i].conversationID in h.rows
      ensures rows[i].beforeEntryID.Some? ==> HasKey(h.entries, rows[i].beforeEntryID.value)
    {
      assert i > 0 ==> rows[i] == Copy(parent[i - 1], KeyOf(anchor), depth);
    }
  }

  lemma AppendValidRows(g: Group, c: string, key: nat, d: string)
    requires Valid(g) && Accepted(g, Append(c, key)) && d in g.rows
    ensures ValidRows(Step(g, Append(c, key)), d, g.rows[d])
  {
    var h, rows := Step(g, Append(c, key)), g.rows[d];
    assert ValidRows(g, d, rows);
    InsertSorted(g.entries, Entry(key, c));
    forall j | 0 <= j < |rows| && rows[j].beforeEntryID.Some? ensures HasKey(h.entries, rows[j].beforeEntryID.value) {
      var b :| b in g.entries && b.key == rows[j].beforeEntryID.value;
      assert b in h.entries;
    }
  }

  lemma StepKeepsValid(g: Group, op: Operation)
    requires Valid(g)
    ensures Valid(Step(g, op))
  {
    var h := Step(g, op);
    if Accepted(g, op) {
      if op.Append? {
        InsertSorted(g.entries, Entry(op.key, op.convID));
      }
      forall d | d in h.rows ensures ValidRows(h, d, h.rows[d]) {
        if op.Append? {
          AppendValidRows(g, op.convID, op.key, d);
        } else if d != op.convID {
          assert ValidRows(g, d, g.rows[d]);
        } else if op.Fork? {
          ForkValidRows(g, d, op.parentID, op.anchor);
        } else {
          assert h.rows[d] == [Self(d)];
        }
      }
    }
  }

  lemma {:induction false} RunKeepsValid(g: Group, ops: seq<Operation>)
    requires Valid(g)
    ensures Valid(Run(g, ops))
    decreases |ops|
  {
    hide Valid, Step;
    if ops != [] {
      StepKeepsValid(g, ops[0]);
      RunKeepsValid(Step(g, ops[0]), ops[1..]);
    }
  }

  // ---- What histories on time keep ---------------------------------------------------------------

  /** `e` comes after the boundary of every ancestor further up than its own conversation. */
  ghost predicate AfterBounds(rows: seq<Segment>, e: Entry) {
    forall i, j | 0 <= i < j < |rows| && rows[i].conversationID == e.conversationID && rows[j].beforeEntryID.Some? ::
      e.key > rows[j].beforeEntryID.value
  }

  ghost predicate Timely(g: Group) {
    forall c, e | c in g.rows && e in g.entries :: AfterBounds(g.rows[c], e)
  }

  /** The anchor of a fork of `parent`, with the depth at which it is visible. */
  ghost predicate IsAnchor(parent: seq<Segment>, anchor: Option<Entry>, depth: Option<int>) {
    && (anchor.Some? <==> depth.Some?)
    && (anchor.Some? ==> 0 <= depth.value < |parent| && Shows(parent[depth.value], anchor.value))
  }

  /** A fork tightens the boundary of the anchor's owner and loosens none. */
  lemma ForkAfterBounds(c: string, parent: seq<Segment>, anchor: Option<Entry>, depth: Option<int>, e: Entry)
    requires WellFormed(parent) && IsAnchor(parent, anchor, depth) && AfterBounds(parent, e)
    requires anchor.Some? ==> AfterBounds(parent, anchor.value)
    ensures e.conversationID != c ==> AfterBounds(ForkRows(c, parent, KeyOf(anchor), depth), e)
  {
    var rows := ForkRows(c, parent, KeyOf(anchor), depth);
    if e.conversationID != c {
      forall i, j | 0 <= i < j < |rows| && rows[i].conversationID == e.conversationID && rows[j].beforeEntryID.Some?
        ensures e.key > rows[j].beforeEntryID.value
      {
        assert rows[i] == Copy(parent[i - 1], KeyOf(anchor), depth);
        assert rows[j] == Copy(parent[j - 1], KeyOf(anchor), depth);
      }
    }
  }

  lemma ForkKeepsTimely(g: Group, c: string, p: string, anchor: Option<Entry>)
    requires Valid(g) && Timely(g) && Accepted(g, Fork(c, p, anchor))
    ensures Timely(Step(g, Fork(c, p, anchor)))
  {
    var h, parent := Step(g, Fork(c, p, anchor)), g.rows[p];
    assert ValidRows(g, p, parent);
    var depth := if anchor.Some? then OwnerDepth(parent, anchor.value) else None;
    forall d, e | d in h.rows && e in h.entries ensures AfterBounds(h.rows[d], e) {
      if d == c {
        ForkAfterBounds(c, parent, anchor, depth, e);
      }
    }
  }

  lemma AppendKeepsTimely(g: Group, c: string, key: nat)
    requires Valid(g) && Timely(g) && Accepted(g, Append(c, key)) && OnTime(g, Append(c, key))
    ensures Timely(Step(g, Append(c, key)))
  {
    var h := Step(g, Append(c, key));
    InsertSorted(g.entries, Entry(key, c));
    forall d, e | d in h.rows && e in h.entries ensures AfterBounds(h.rows[d], e) {
      assert ValidRows(g, d, g.rows[d]);
    }
  }

  lemma StepKeepsTimely(g: Group, op: Operation)
    requires Valid(g) && Timely(g) && OnTime(g, op)
    ensures Timely(Step(g, op))
  {
    if Accepted(g, op) {
      match op
      case Create(c) =>
      case Append(c, key) => AppendKeepsTimely(g, c, key);
      case Fork(c, p, anchor) => ForkKeepsTimely(g, c, p, anchor);
    }
  }

  lemma {:induction false} RunKeepsTimely(g: Group, ops: seq<Operation>)
    requires Valid(g) && Timely(g) && RunOnTime(g, ops)
    ensures Timely(Run(g, ops))
    decreases |ops|
  {
    hide Valid, Step, Timely, OnTime;
    if ops != [] {
      StepKeepsValid(g, ops[0]);
      StepKeepsTimely(g, ops[0]);
      RunKeepsTimely(Step(g, ops[0]), ops[1..]);
    }
  }

  // ---- What a fork inherits ------------------------------------------------------------------------

  lemma {:induction false} VisibleMembers(entries: seq<Entry>, rows: seq<Segment>)
    ensures forall e :: e in VisibleIn(entries, rows) <==> e in entries && VisibleTo(rows, e)
  {
    if entries != [] {
      VisibleMembers(entries[..|entries| - 1], rows);
      assert entries == entries[..|entries| - 1] + [entries[|entries| - 1]];
    }
  }

  lemma {:induction false} CutMembers(entries: seq<Entry>, key: nat)
    ensures forall e :: e in CutBefore(entries, key) <==> e in entries && e.key < key
  {
    if entries != [] {
      CutMembers(entries[..|entries| - 1], key);
      assert entries == entries[..|entries| - 1] + [entries[|entries| - 1]];
    }
  }

  lemma {:induction false} VisibleCut(entries: seq<Entry>, rows: seq<Segment>, parent: seq<Segment>, key: nat)
    requires forall e | e in entries :: VisibleTo(rows, e) <==> VisibleTo(parent, e) && e.key < key
    ensures VisibleIn(entries, rows) == CutBefore(VisibleIn(entries, parent), key)
  {
    if entries != [] {
      var front, last := entries[..|entries| - 1], entries[|entries| - 1];
      VisibleCut(front, rows, parent, key);
      assert last in entries;
      var seen := VisibleIn(front, parent);
      assert (seen + [last])[..|seen|] == seen && seen + [] == seen;
    }
  }

  lemma {:induction false} VisibleNotOwned(entries: seq<Entry>, rows: seq<Segment>, parent: seq<Segment>, c: string)
    requires forall e | e in entries :: VisibleTo(rows, e) <==> VisibleTo(parent, e) && e.conversationID != c
    ensures VisibleIn(entries, rows) == NotOwnedBy(VisibleIn(entries, parent), c)
  {
    if entries != [] {
      var front, last := entries[..|entries| - 1], entries[|entries| - 1];
      VisibleNotOwned(front, rows, parent, c);
      assert last in entries;
      var seen := VisibleIn(front, parent);
      assert (seen + [last])[..|seen|] == seen && seen + [] == seen;
    }
  }

  /** Where the entry is visible, it lies on the side of the anchor where its owner is: entries of nearer
      conversations do not precede the anchor, those of farther ones do. */
  ghost predicate InPlace(parent: seq<Segment>, anchor: Entry, depth: int, e: Entry) {
    forall m | 0 <= m < |parent| && Shows(parent[m], e) ::
      (m < depth ==> e.key >= anchor.key) && (m > depth ==> e.key < anchor.key)
  }

  lemma CopyShows(parent: seq<Segment>, anchor: Entry, depth: int, m: nat, e: Entry)
    requires WellFormed(parent) && IsAnchor(parent, Some(anchor), Some(depth)) && m < |parent|
    ensures Shows(Copy(parent[m], Some(anchor.key), Some(depth)), e) <==>
            Shows(parent[m], e) && (m == depth ==> e.key < anchor.key) && m >= depth
  {
  }

  /** The parent's row at `m` shows the entry, and its copy still does. */
  ghost predicate Kept(parent: seq<Segment>, anchor: Entry, depth: int, m: int, e: Entry)
    requires 0 <= m < |parent|
  {
    Shows(parent[m], e) && (m == depth ==> e.key < anchor.key) && m >= depth
  }

  lemma ForkKeeps(c: string, parent: seq<Segment>, anchor: Entry, depth: int, e: Entry)
    requires WellFormed(parent) && IsAnchor(parent, Some(anchor), Some(depth)) && e.conversationID != c
    ensures VisibleTo(ForkRows(c, parent, Some(anchor.key), Some(depth)), e) <==>
            exists m :: 0 <= m < |parent| && Kept(parent, anchor, depth, m, e)
  {
    var rows := ForkRows(c, parent, Some(anchor.key), Some(depth));
    assert !Shows(rows[0], e);
    forall m | 0 <= m < |parent| ensures Shows(rows[m + 1], e) <==> Kept(parent, anchor, depth, m, e) {
      CopyShows(parent, anchor, depth, m, e);
    }
    hide Copy, Shows, WellFormed, IsAnchor, Kept;
    if VisibleTo(rows, e) {
      var i :| 0 <= i < |rows| && Shows(rows[i], e);
      assert i > 0;
      assert Shows(rows[i - 1 + 1], e);
      assert Kept(parent, anchor, depth, i - 1, e);
    }
    if m :| 0 <= m < |parent| && Kept(parent, anchor, depth, m, e) {
      assert Shows(rows[m + 1], e);
    }
  }

  lemma ShownOnce(parent: seq<Segment>, e: Entry, m: int, n: int)
    requires WellFormed(parent) && 0 <= m < |parent| && 0 <= n < |parent| && Shows(parent[m], e) && Shows(parent[n], e)
    ensures m == n
  {
  }

  /** An entry is visible to a fork exactly if it is visible to the parent and precedes the anchor,
      provided that it is in place, and only then. */
  lemma ForkShows(c: string, parent: seq<Segment>, anchor: Entry, depth: int, e: Entry)
    requires WellFormed(parent) && IsAnchor(parent, Some(anchor), Some(depth)) && e.conversationID != c
    ensures (VisibleTo(ForkRows(c, parent, Some(anchor.key), Some(depth)), e) <==>
             VisibleTo(parent, e) && e.key < anchor.key) <==> InPlace(parent, anchor, depth, e)
  {
    ForkKeeps(c, parent, anchor, depth, e);
    hide ForkRows, Shows, WellFormed, IsAnchor;
    if m :| 0 <= m < |parent| && Shows(parent[m], e) {
      forall n | 0 <= n < |parent| && Shows(parent[n], e) ensures n == m {
        ShownOnce(parent, e, m, n);
      }
      assert (exists n :: 0 <= n < |parent| && Kept(parent, anchor, depth, n, e)) <==> Kept(parent, anchor, depth, m, e);
      assert InPlace(parent, anchor, depth, e) <==> (m < depth ==> e.key >= anchor.key) && (m > depth ==> e.key < anchor.key);
      assert VisibleTo(parent, e);
      hide InPlace, VisibleTo;
    } else {
      assert !VisibleTo(parent, e) && InPlace(parent, anchor, depth, e);
      assert forall n | 0 <= n < |parent| :: !Kept(parent, anchor, depth, n, e);
      hide InPlace, VisibleTo, Kept;
    }
  }

  lemma ForkedAt(g: Group, c: string, p: string, anchor: Entry)
    requires Valid(g) && Accepted(g, Fork(c, p, Some(anchor)))
    ensures var parent := g.rows[p];
            var depth := OwnerDepth(parent, anchor);
            && WellFormed(parent) && depth.Some? && IsAnchor(parent, Some(anchor), depth)
            && Step(g, Fork(c, p, Some(anchor))) == g.(rows := g.rows[c := ForkRows(c, parent, Some(anchor.key), depth)])
            && (forall e | e in g.entries :: e.conversationID != c)
  {
    assert ValidRows(g, p, g.rows[p]);
  }

  /** Over all histories: a fork sees its parent's visible history cut strictly before the anchor, exactly
      if every entry that the parent sees is in place. */
  lemma ForkInheritsExact(ops: seq<Operation>, c: string, p: string, anchor: Entry)
    requires Accepted(Run(Empty, ops), Fork(c, p, Some(anchor)))
    ensures var g := Run(Empty, ops);
            var depth := OwnerDepth(g.rows[p], anchor);
            && depth.Some?
            && (Visible(Step(g, Fork(c, p, Some(anchor))), c) == CutBefore(Visible(g, p), anchor.key) <==>
                forall e | e in g.entries :: InPlace(g.rows[p], anchor, depth.value, e))
  {
    var g := Run(Empty, ops);
    RunKeepsValid(Empty, ops);
    ForkedAt(g, c, p, anchor);
    var parent, depth := g.rows[p], OwnerDepth(g.rows[p], anchor).value;
    var rows := ForkRows(c, parent, Some(anchor.key), Some(depth));
    hide Step, ForkRows, Shows, VisibleTo, WellFormed, IsAnchor, Valid, InPlace;
    forall e | e in g.entries
      ensures (VisibleTo(rows, e) <==> VisibleTo(parent, e) && e.key < anchor.key) <==> InPlace(parent, anchor, depth, e)
    {
      ForkShows(c, parent, anchor, depth, e);
    }
    if forall e | e in g.entries :: InPlace(parent, anchor, depth, e) {
      VisibleCut(g.entries, rows, parent, anchor.key);
    }
    VisibleMembers(g.entries, rows);
    VisibleMembers(g.entries, parent);
    CutMembers(VisibleIn(g.entries, parent), anchor.key);
  }

  lemma TimelyInPlace(parent: seq<Segment>, anchor: Entry, depth: int, e: Entry)
    requires WellFormed(parent) && IsAnchor(parent, Some(anchor), Some(depth)) && AfterBounds(parent, e) && AfterBounds(parent, anchor)
    ensures InPlace(parent, anchor, depth, e)
  {
  }

  /** While entries are appended on time, a fork sees its parent's visible history cut strictly before the
      anchor, whichever ancestor owns the anchor. */
  lemma ForkInherits(ops: seq<Operation>, c: string, p: string, anchor: Entry)
    requires RunOnTime(Empty, ops) && Accepted(Run(Empty, ops), Fork(c, p, Some(anchor)))
    ensures var g := Run(Empty, ops);
            Visible(Step(g, Fork(c, p, Some(anchor))), c) == CutBefore(Visible(g, p), anchor.key)
  {
    var g := Run(Empty, ops);
    RunKeepsValid(Empty, ops);
    RunKeepsTimely(Empty, ops);
    ForkedAt(g, c, p, anchor);
    ForkInheritsExact(ops, c, p, anchor);
    forall e | e in g.entries ensures InPlace(g.rows[p], anchor, OwnerDepth(g.rows[p], anchor).value, e) {
      TimelyInPlace(g.rows[p], anchor, OwnerDepth(g.rows[p], anchor).value, e);
    }
  }

  /** Exactly the row of the direct parent records the requested anchor. */
  lemma ForkRecordsAnchor(c: string, parent: seq<Segment>, key: Option<nat>, depth: Option<int>, i: nat)
    requires WellFormed(parent) && i <= |parent|
    ensures var row := ForkRows(c, parent, key, depth)[i];
            row.forkedAtEntryID == if i == 1 then key else None
  {
    assert i > 0 ==> ForkRows(c, parent, key, depth)[i] == Copy(parent[i - 1], key, depth);
  }

  lemma BlankForkShows(c: string, parent: seq<Segment>, e: Entry)
    requires WellFormed(parent) && parent[0].beforeEntryID.None? && e.conversationID != c
    ensures VisibleTo(ForkRows(c, parent, None, None), e) <==>
            VisibleTo(parent, e) && e.conversationID != parent[0].conversationID
  {
    var rows := ForkRows(c, parent, None, None);
    if VisibleTo(rows, e) {
      var i :| 0 <= i < |rows| && Shows(rows[i], e);
      assert rows[i] == Copy(parent[i - 1], None, None);
      assert Shows(parent[i - 1], e);
    }
    if VisibleTo(parent, e) && e.conversationID != parent[0].conversationID {
      var m :| 0 <= m < |parent| && Shows(parent[m], e);
      assert rows[m + 1] == Copy(parent[m], None, None);
      assert Shows(rows[m + 1], e);
    }
  }

  /** Without an anchor the fork sees what its parent inherited, and nothing of the parent's own. */
  lemma BlankForkInherits(ops: seq<Operation>, c: string, p: string)
    requires Accepted(Run(Empty, ops), Fork(c, p, None))
    ensures var g := Run(Empty, ops);
            Visible(Step(g, Fork(c, p, None)), c) == NotOwnedBy(Visible(g, p), p)
  {
    var g := Run(Empty, ops);
    RunKeepsValid(Empty, ops);
    var parent := g.rows[p];
    assert ValidRows(g, p, parent);
    var rows := ForkRows(c, parent, None, None);
    forall e | e in g.entries ensures VisibleTo(rows, e) <==> VisibleTo(parent, e) && e.conversationID != p {
      BlankForkShows(c, parent, e);
    }
    VisibleNotOwned(g.entries, rows, parent, p);
  }

  // ---- How a visible history changes ----------------------------------------------------------------

  /** The key precedes the boundary of `rows` on the ancestor `d`. */
  ghost predicate PrecedesBoundary(rows: seq<Segment>, d: string, key: nat) {
    exists i :: 0 < i < |rows| && rows[i].conversationID == d && rows[i].beforeEntryID.Some? && key < rows[i].beforeEntryID.value
  }

  lemma AppendShows(g: Group, c: string, d: string, key: nat)
    requires Valid(g) && c in g.rows
    ensures VisibleTo(g.rows[c], Entry(key, d)) <==> c == d || PrecedesBoundary(g.rows[c], d, key)
  {
    var rows, e := g.rows[c], Entry(key, d);
    assert ValidRows(g, c, rows);
    if c == d {
      assert Shows(rows[0], e);
    }
    if i :| 0 < i < |rows| && rows[i].conversationID == d && rows[i].beforeEntryID.Some? && key < rows[i].beforeEntryID.value {
      assert Shows(rows[i], e);
    }
    if VisibleTo(rows, e) && c != d {
      var i :| 0 <= i < |rows| && Shows(rows[i], e);
      assert i > 0;
    }
  }

  lemma VisibleNext(entries: seq<Entry>, rows: seq<Segment>, e: Entry)
    ensures VisibleIn(entries + [e], rows) == if VisibleTo(rows, e) then VisibleIn(entries, rows) + [e] else VisibleIn(entries, rows)
  {
    assert (entries + [e])[..|entries|] == entries;
    assert VisibleIn(entries, rows) + [] == VisibleIn(entries, rows);
  }

  lemma InsertLast(entries: seq<Entry>, e: Entry)
    ensures entries == [] || entries[|entries| - 1].key < e.key ==> Insert(entries, e) == entries + [e]
    ensures entries != [] && entries[|entries| - 1].key >= e.key ==>
              Insert(entries, e) == Insert(entries[..|entries| - 1], e) + [entries[|entries| - 1]]
  {
  }

  lemma SeenBelow(entries: seq<Entry>, rows: seq<Segment>, key: nat)
    requires SortedEntries(entries) && entries != [] && entries[|entries| - 1].key < key
    ensures var seen := VisibleIn(entries, rows); seen != [] ==> seen[|seen| - 1].key < key
  {
    var seen := VisibleIn(entries, rows);
    VisibleMembers(entries, rows);
    if seen != [] {
      assert seen[|seen| - 1] in seen;
      var i :| 0 <= i < |entries| && entries[i] == seen[|seen| - 1];
    }
  }

  lemma InsertThrough(x: seq<Entry>, last: Entry, e: Entry)
    requires last.key >= e.key
    ensures Insert(x + [last], e) == Insert(x, e) + [last]
  {
    assert (x + [last])[..|x|] == x;
  }

  lemma VisibleInsertBefore(front: seq<Entry>, last: Entry, rows: seq<Segment>, e: Entry)
    requires last.key >= e.key
    requires VisibleIn(Insert(front, e), rows) ==
             if VisibleTo(rows, e) then Insert(VisibleIn(front, rows), e) else VisibleIn(front, rows)
    ensures VisibleIn(Insert(front + [last], e), rows) ==
            if VisibleTo(rows, e) then Insert(VisibleIn(front + [last], rows), e) else VisibleIn(front + [last], rows)
  {
    InsertThrough(front, last, e);
    VisibleNext(front, rows, last);
    VisibleNext(Insert(front, e), rows, last);
    InsertThrough(VisibleIn(front, rows), last, e);
    hide Insert, VisibleIn, VisibleTo;
  }

  lemma VisibleInsertLast(entries: seq<Entry>, rows: seq<Segment>, e: Entry)
    requires SortedEntries(entries) && (entries == [] || entries[|entries| - 1].key < e.key)
    ensures VisibleIn(Insert(entries, e), rows) ==
            if VisibleTo(rows, e) then Insert(VisibleIn(entries, rows), e) else VisibleIn(entries, rows)
  {
    InsertLast(entries, e);
    InsertLast(VisibleIn(entries, rows), e);
    VisibleNext(entries, rows, e);
    if entries != [] {
      SeenBelow(entries, rows, e.key);
      hide Insert, VisibleIn, VisibleTo;
    }
  }

  lemma {:induction false} VisibleInsert(entries: seq<Entry>, rows: seq<Segment>, e: Entry)
    requires SortedEntries(entries)
    ensures VisibleIn(Insert(entries, e), rows) ==
            if VisibleTo(rows, e) then Insert(VisibleIn(entries, rows), e) else VisibleIn(entries, rows)
    decreases |entries|
  {
    if entries == [] || entries[|entries| - 1].key < e.key {
      VisibleInsertLast(entries, rows, e);
    } else {
      var front, last := entries[..|entries| - 1], entries[|entries| - 1];
      assert front + [last] == entries && SortedEntries(front);
      hide *;
      VisibleInsert(front, rows, e);
      VisibleInsertBefore(front, last, rows, e);
    }
  }

  /** The entry that an operation adds to what `c` sees, if it does. */
  ghost function NewEntry(g: Group, op: Operation, c: string): seq<Entry>
    requires c in g.rows
  {
    if Accepted(g, op) && op.Append? && (op.convID == c || PrecedesBoundary(g.rows[c], op.convID, op.key))
    then [Entry(op.key, op.convID)] else []
  }

  function InsertAll(entries: seq<Entry>, more: seq<Entry>): seq<Entry>
    decreases |more|
  {
    if more == [] then entries else InsertAll(Insert(entries, more[0]), more[1..])
  }

  lemma InsertOne(entries: seq<Entry>, e: Entry)
    ensures InsertAll(entries, [e]) == Insert(entries, e) && InsertAll(entries, []) == entries
  {
    assert [e][1..] == [];
  }

  lemma StepChanges(g: Group, op: Operation, c: string)
    requires Valid(g) && c in g.rows
    ensures c in Step(g, op).rows && Step(g, op).rows[c] == g.rows[c]
    ensures Visible(Step(g, op), c) == InsertAll(Visible(g, c), NewEntry(g, op, c))
  {
    var e := if op.Append? then Entry(op.key, op.convID) else Entry(0, c);
    InsertOne(Visible(g, c), e);
    if op.Append? {
      AppendShows(g, c, op.convID, op.key);
      VisibleInsert(g.entries, g.rows[c], e);
    }
    hide Valid, VisibleIn, VisibleTo, Insert, InsertAll, PrecedesBoundary, ForkRows, HasKey;
  }

  /** The entries that a run adds to what `c` sees: those appended to `c` itself, and those appended to an
      ancestor with a place before the boundary on it. */
  ghost function Added(g: Group, ops: seq<Operation>, c: string): seq<Entry>
    requires Valid(g) && c in g.rows
    decreases |ops|
  {
    if ops == [] then []
    else
      StepKeepsValid(g, ops[0]);
      StepChanges(g, ops[0], c);
      NewEntry(g, ops[0], c) + Added(Step(g, ops[0]), ops[1..], c)
  }

  lemma {:induction false} InsertAllJoin(entries: seq<Entry>, a: seq<Entry>, b: seq<Entry>)
    ensures InsertAll(entries, a + b) == InsertAll(InsertAll(entries, a), b)
    decreases |a|
  {
    if a == [] {
      assert a + b == b;
    } else {
      assert (a + b)[1..] == a[1..] + b;
      InsertAllJoin(Insert(entries, a[0]), a[1..], b);
    }
  }

  lemma {:induction false} InsertAllSize(entries: seq<Entry>, more: seq<Entry>)
    ensures |InsertAll(entries, more)| == |entries| + |more|
    decreases |more|
  {
    if more != [] {
      InsertSize(entries, more[0]);
      InsertAllSize(Insert(entries, more[0]), more[1..]);
    }
  }

  lemma {:induction false} InsertSize(entries: seq<Entry>, e: Entry)
    ensures |Insert(entries, e)| == |entries| + 1
  {
    if entries != [] && entries[|entries| - 1].key >= e.key {
      InsertSize(entries[..|entries| - 1], e);
    }
  }

  /** Over any history, what a conversation sees changes by exactly the entries that are appended to it, or
      to an ancestor before its boundary there; so it stays as it is exactly if there are none. */
  lemma {:induction false} HistoryExact(g: Group, ops: seq<Operation>, c: string)
    requires Valid(g) && c in g.rows
    ensures c in Run(g, ops).rows
    ensures Visible(Run(g, ops), c) == InsertAll(Visible(g, c), Added(g, ops, c))
    ensures Visible(Run(g, ops), c) == Visible(g, c) <==> Added(g, ops, c) == []
    decreases |ops|
  {
    if ops != [] {
      hide Valid, Step, Visible, NewEntry, Insert;
      StepChanges(g, ops[0], c);
      StepKeepsValid(g, ops[0]);
      HistoryExact(Step(g, ops[0]), ops[1..], c);
      InsertAllJoin(Visible(g, c), NewEntry(g, ops[0], c), Added(Step(g, ops[0]), ops[1..], c));
    }
    InsertAllSize(Visible(g, c), Added(g, ops, c));
  }

  /** The entry that an operation appends to `c`, if it does. */
  ghost function OwnEntry(g: Group, op: Operation, c: string): seq<Entry> {
    if Accepted(g, op) && op.Append? && op.convID == c then [Entry(op.key, c)] else []
  }

  /** The entries that a run appends to `c`. */
  ghost function Appended(g: Group, ops: seq<Operation>, c: string): seq<Entry>
    decreases |ops|
  {
    if ops == [] then [] else OwnEntry(g, ops[0], c) + Appended(Step(g, ops[0]), ops[1..], c)
  }

  lemma StepExtends(g: Group, op: Operation, c: string)
    requires Valid(g) && c in g.rows && OnTime(g, op)
    ensures c in Step(g, op).rows
    ensures Visible(Step(g, op), c) == Visible(g, c) + OwnEntry(g, op, c)
  {
    if Accepted(g, op) && op.Append? {
      var e := Entry(op.key, op.convID);
      AppendShows(g, c, op.convID, op.key);
      assert ValidRows(g, c, g.rows[c]);
      assert !PrecedesBoundary(g.rows[c], op.convID, op.key);
      assert g.entries != [] ==> g.entries[|g.entries| - 1] in g.entries;
      assert Insert(g.entries, e) == g.entries + [e];
      assert (g.entries + [e])[..|g.entries|] == g.entries;
    }
  }

  /** While entries are appended on time, no later operation, on any ancestor or elsewhere, changes what a
      conversation already sees: it only gains the entries appended to itself, at the end. */
  lemma {:induction false} HistoryIsFinal(g: Group, ops: seq<Operation>, c: string)
    requires Valid(g) && c in g.rows && RunOnTime(g, ops)
    ensures c in Run(g, ops).rows
    ensures Visible(Run(g, ops), c) == Visible(g, c) + Appended(g, ops, c)
    decreases |ops|
  {
    hide Valid, Step, Visible, OwnEntry, OnTime;
    var seen := Visible(g, c);
    if ops == [] {
      assert seen + [] == seen;
    } else {
      var next, more := OwnEntry(g, ops[0], c), Appended(Step(g, ops[0]), ops[1..], c);
      StepExtends(g, ops[0], c);
      StepKeepsValid(g, ops[0]);
      HistoryIsFinal(Step(g, ops[0]), ops[1..], c);
      assert seen + next + more == seen + (next + more);
    }
  }

  // ---- A late entry ---------------------------------------------------------------------------------------

  /** "b" is forked from "a", and gets an entry that is stamped before the ones it inherited. */
  const LateHistory: seq<Operation> :=
    [Create("a"), Append("a", 10), Append("a", 20), Fork("b", "a", Some(Entry(20, "a"))), Append("b", 5)]

  const RowsA := [Self("a")]
  const RowsB := [Self("b"), Segment("a", 1, Some(20), Some(20))]
  const Late1 := Group([], map["a" := RowsA])
  const Late2 := Group([Entry(10, "a")], map["a" := RowsA])
  const Late3 := Group([Entry(10, "a"), Entry(20, "a")], map["a" := RowsA])
  const Late4 := Group([Entry(10, "a"), Entry(20, "a")], map["a" := RowsA, "b" := RowsB])
  const Late5 := Group([Entry(5, "b"), Entry(10, "a"), Entry(20, "a")], map["a" := RowsA, "b" := RowsB])

  lemma LateAppends()
    ensures Step(Empty, Create("a")) == Late1 && Step(Late1, Append("a", 10)) == Late2 && Step(Late2, Append("a", 20)) == Late3
  {
    assert ForkRows("a", [], None, None) == RowsA;
    assert Insert([], Entry(10, "a")) == [Entry(10, "a")];
    assert Insert([Entry(10, "a")], Entry(20, "a")) == [Entry(10, "a"), Entry(20, "a")];
  }

  lemma LateFork()
    ensures Step(Late3, Fork("b", "a", Some(Entry(20, "a")))) == Late4 && Step(Late4, Append("b", 5)) == Late5
  {
    assert Shows(RowsA[0], Entry(20, "a"));
    assert OwnerDepth(RowsA, Entry(20, "a")) == Some(0);
    assert ForkRows("b", RowsA, Some(20), Some(0)) == RowsB;
    var two := [Entry(10, "a"), Entry(20, "a")];
    assert two[..1] == [Entry(10, "a")] && two[..1][..0] == [];
    InsertLast(two, Entry(5, "b"));
    InsertLast(two[..1], Entry(5, "b"));
    assert Insert(two, Entry(5, "b")) == [Entry(5, "b"), Entry(10, "a"), Entry(20, "a")];
  }

  lemma LateRun()
    ensures Run(Empty, LateHistory) == Late5
  {
    LateAppends();
    LateFork();
    hide Step;
    var o5 := [Append("b", 5)];
    var o4 := [Fork("b", "a", Some(Entry(20, "a")))] + o5;
    var o3 := [Append("a", 20)] + o4;
    var o2 := [Append("a", 10)] + o3;
    assert LateHistory[1..] == o2 && o2[1..] == o3 && o3[1..] == o4 && o4[1..] == o5 && o5[1..] == [];
    assert Run(Late4, o5) == Late5;
    assert Run(Late3, o4) == Run(Late4, o5);
    assert Run(Late2, o3) == Run(Late3, o4);
    assert Run(Late1, o2) == Run(Late2, o3);
  }

  lemma LateAnchor()
    ensures Accepted(Late5, Fork("c", "b", Some(Entry(10, "a"))))
    ensures OwnerDepth(RowsB, Entry(10, "a")) == Some(1)
    ensures Entry(5, "b") in Late5.entries && !InPlace(RowsB, Entry(10, "a"), 1, Entry(5, "b"))
  {
    assert Shows(RowsB[1], Entry(10, "a")) && !Shows(RowsB[0], Entry(10, "a")) && Shows(RowsB[0], Entry(5, "b"));
    assert Late5.rows["b"] == RowsB && Late5.entries[1] == Entry(10, "a") && Late5.entries[0] == Entry(5, "b");
  }

  /** A fork of "b" at an inherited entry then does not see that late entry, though its parent sees it
      before the anchor. */
  lemma LateEntryLost()
    ensures var g, fork := Run(Empty, LateHistory), Fork("c", "b", Some(Entry(10, "a")));
            && Accepted(g, fork)
            && Visible(Step(g, fork), "c") != CutBefore(Visible(g, "b"), 10)
  {
    LateRun();
    LateAnchor();
    assert Late5.rows["b"] == RowsB;
    hide *;
    ForkInheritsExact(LateHistory, "c", "b", Entry(10, "a"));
  }
}
