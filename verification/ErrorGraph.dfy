/** Collecting typed details from an unwrap graph (internal/operationevent/errors.go:97-177).

    Errors are numbered; the graph says what each number is, so it may be cyclic or infinite.  Details are
    the sanitised ones, and a branch is the list of child indices from the root. */
module ErrorGraph {
  import opened Wrappers
  import opened Sorting

  const MaxReturned: nat := 8
  const MaxTraversed: nat := 64

  datatype Details = Details(errorType: string, errorCode: string, reason: string, provider: Option<string>)

  /** An error, with its identity if it is a reference, its details if it has a detailer, and what it wraps. */
  datatype Error = Nil | Error(identity: Option<nat>, detailer: Option<Details>, children: seq<nat>)

  type Graph = nat -> Error

  datatype ErrorNode = ErrorNode(err: nat, branch: seq<nat>, depth: nat)

  datatype Entry = Entry(details: Details, branch: seq<nat>, depth: nat)

  predicate HasDetails(e: Error) {
    && e.Error? && e.detailer.Some?
    && var d := e.detailer.value;
       d.errorType != "" || d.errorCode != "" || d.reason != "" || d.provider.Some?
  }

  // ---- The reference: recursive preorder --------------------------------------------------------------

  /** The nodes visited so far, in order, the identities seen, and the nodes left once the budget ran out. */
  datatype Walk = Walk(visits: seq<ErrorNode>, seen: set<nat>, left: seq<ErrorNode>)

  function ChildNodes(g: Graph, n: ErrorNode): (r: seq<ErrorNode>)
    requires g(n.err).Error?
    ensures |r| == |g(n.err).children|
  {
    var children := g(n.err).children;
    seq(|children|, i requires 0 <= i < |children| => ErrorNode(children[i], n.branch + [i], n.depth + 1))
  }

  predicate Skipped(e: Error, seen: set<nat>) {
    e.Nil? || (e.identity.Some? && e.identity.value in seen)
  }

  function Enter(g: Graph, n: ErrorNode, w: Walk): Walk
    requires g(n.err).Error?
  {
    var id := g(n.err).identity;
    Walk(w.visits + [n], if id.Some? then w.seen + {id.value} else w.seen, w.left)
  }

  function Visit(g: Graph, n: ErrorNode, w: Walk): (r: Walk)
    requires |w.visits| <= MaxTraversed
    ensures w.visits <= r.visits && |r.visits| <= MaxTraversed
    decreases MaxTraversed - |w.visits|, 0
  {
    if |w.visits| >= MaxTraversed then w.(left := w.left + [n])
    else if Skipped(g(n.err), w.seen) then w
    else VisitAll(g, ChildNodes(g, n), Enter(g, n, w))
  }

  function VisitAll(g: Graph, ns: seq<ErrorNode>, w: Walk): (r: Walk)
    requires |w.visits| <= MaxTraversed
    ensures w.visits <= r.visits && |r.visits| <= MaxTraversed
    decreases MaxTraversed - |w.visits|, |ns|
  {
    if ns == [] then w else VisitAll(g, ns[1..], Visit(g, ns[0], w))
  }

  const Fresh := Walk([], {}, [])

  function Traversal(g: Graph, root: nat): Walk {
    VisitAll(g, [ErrorNode(root, [], 0)], Fresh)
  }

  /** The entries of the visited nodes that have details. */
  function Entries(g: Graph, visits: seq<ErrorNode>): seq<Entry> {
    if visits == [] then []
    else
      var n := visits[|visits| - 1];
      Entries(g, visits[..|visits| - 1])
      + if HasDetails(g(n.err)) then [Entry(g(n.err).detailer.value, n.branch, n.depth)] else []
  }

  datatype Ordered = Ordered(entry: Entry, order: nat)

  function Number(entries: seq<Entry>): seq<Ordered> {
    seq(|entries|, i requires 0 <= i < |entries| => Ordered(entries[i], i))
  }

  predicate Deeper(a: Ordered, b: Ordered) {
    if a.entry.depth != b.entry.depth then a.entry.depth > b.entry.depth else a.order < b.order
  }

  function Unnumber(s: seq<Ordered>): seq<Entry> {
    seq(|s|, i requires 0 <= i < |s| => s[i].entry)
  }

  function Ranking(entries: seq<Entry>): seq<Ordered> {
    StableSort(Number(entries), Deeper)
  }

  function First8(s: seq<Ordered>): seq<Ordered> {
    if |s| > MaxReturned then s[..MaxReturned] else s
  }

  // ---- The stack loop ------------------------------------------------------------------------------------

  function Rev<T>(s: seq<T>): (r: seq<T>)
    ensures |r| == |s| && forall i | 0 <= i < |s| :: r[i] == s[|s| - 1 - i]
  {
    seq(|s|, i requires 0 <= i < |s| => s[|s| - 1 - i])
  }

  lemma {:induction false} AllLeft(g: Graph, ns: seq<ErrorNode>, w: Walk)
    requires |w.visits| == MaxTraversed
    ensures VisitAll(g, ns, w) == w.(left := w.left + ns)
  {
    if ns == [] {
      assert w.left + [] == w.left;
    } else {
      AllLeft(g, ns[1..], w.(left := w.left + [ns[0]]));
      assert w.left + [ns[0]] + ns[1..] == w.left + ns;
    }
  }

  lemma {:induction false} VisitConcat(g: Graph, a: seq<ErrorNode>, b: seq<ErrorNode>, w: Walk)
    requires |w.visits| <= MaxTraversed
    ensures VisitAll(g, a + b, w) == VisitAll(g, b, VisitAll(g, a, w))
    decreases |a|
  {
    if a == [] {
      assert a + b == b;
    } else {
      assert (a + b)[1..] == a[1..] + b;
      VisitConcat(g, a[1..], b, Visit(g, a[0], w));
    }
  }

  /** Popping a node: it is skipped, or replaced by its children. */
  lemma PopStep(g: Graph, stack: seq<ErrorNode>, w: Walk)
    requires |w.visits| <= MaxTraversed && stack != []
    ensures var n, rest := stack[|stack| - 1], stack[..|stack| - 1];
            && (|w.visits| == MaxTraversed ==> VisitAll(g, Rev(stack), w) == w.(left := w.left + Rev(stack)))
            && (|w.visits| < MaxTraversed && Skipped(g(n.err), w.seen) ==> VisitAll(g, Rev(stack), w) == VisitAll(g, Rev(rest), w))
            && (|w.visits| < MaxTraversed && !Skipped(g(n.err), w.seen) ==>
                  VisitAll(g, Rev(stack), w) == VisitAll(g, Rev(rest + Rev(ChildNodes(g, n))), Enter(g, n, w)))
  {
    var n, rest := stack[|stack| - 1], stack[..|stack| - 1];
    assert Rev(stack)[1..] == Rev(rest);
    if |w.visits| == MaxTraversed {
      AllLeft(g, Rev(stack), w);
    } else if !Skipped(g(n.err), w.seen) {
      var c := ChildNodes(g, n);
      assert Rev(rest + Rev(c)) == c + Rev(rest);
      VisitConcat(g, c, Rev(rest), Enter(g, n, w));
    }
  }

  method PushChildren(stack0: seq<ErrorNode>, node: ErrorNode, children: seq<nat>) returns (stack: seq<ErrorNode>)
    ensures stack == stack0 + Rev(seq(|children|, i requires 0 <= i < |children| => ErrorNode(children[i], node.branch + [i], node.depth + 1)))
  {
    stack := stack0;
    ghost var all := seq(|children|, i requires 0 <= i < |children| => ErrorNode(children[i], node.branch + [i], node.depth + 1));
    for i := |children| downto 0
      invariant stack == stack0 + Rev(all[i..])
    {
      assert Rev(all[i..]) == Rev(all[i + 1..]) + [all[i]];
      stack := stack + [ErrorNode(children[i], node.branch + [i], node.depth + 1)];
    }
    assert all[0..] == all;
  }

  lemma EntriesNext(g: Graph, visits: seq<ErrorNode>, n: ErrorNode)
    ensures Entries(g, visits + [n]) ==
            Entries(g, visits) + if HasDetails(g(n.err)) then [Entry(g(n.err).detailer.value, n.branch, n.depth)] else []
  {
    assert (visits + [n])[..|visits|] == visits;
  }

  function Compatibility(entries: seq<Entry>): Option<Entry> {
    if entries == [] then None else Some(entries[0])
  }

  /** The traversal loop.  It ends on every graph. */
  method Traverse(g: Graph, root: nat) returns (entries: seq<Entry>, compatibility: Option<Entry>, truncated: bool)
    ensures var w := Traversal(g, root);
            && entries == Entries(g, w.visits) && compatibility == Compatibility(entries) && truncated == (w.left != [])
  {
    var stack: seq<ErrorNode> := [ErrorNode(root, [], 0)];
    var seen: set<nat> := {};
    var traversed: nat := 0;
    entries, compatibility, truncated := [], None, false;
    ghost var w, end := Fresh, Traversal(g, root);
    assert Rev(stack) == stack;
    hide VisitAll, Visit, HasDetails, ChildNodes, Entries, Skipped;
    assert Entries(g, []) == [] by { EntriesNone(g); }
    while |stack| > 0
      invariant !truncated && w.left == [] && seen == w.seen && traversed == |w.visits| <= MaxTraversed
      invariant entries == Entries(g, w.visits) && compatibility == Compatibility(entries)
      invariant VisitAll(g, Rev(stack), w) == end
      decreases MaxTraversed - traversed, |stack|
    {
      PopStep(g, stack, w);
      if traversed >= MaxTraversed {
        truncated := true;
        return;
      }
      var node := stack[|stack| - 1];
      var err := g(node.err);
      SkippedIs(err, seen);
      stack := stack[..|stack| - 1];
      if err.Nil? {
        continue;
      }
      if err.identity.Some? {
        if err.identity.value in seen {
          continue;
        }
        seen := seen + {err.identity.value};
      }
      traversed := traversed + 1;
      EntriesNext(g, w.visits, node);
      if HasDetails(err) {
        var entry := Entry(DetailsOf(err), node.branch, node.depth);
        if compatibility.None? {
          compatibility := Some(entry);
        }
        entries := entries + [entry];
      }
      w := Enter(g, node, w);
      ChildrenAre(g, node);
      stack := PushChildren(stack, node, err.children);
    }
    NothingLeft(g, w);
  }

  function DetailsOf(e: Error): Details
    requires HasDetails(e)
  {
    e.detailer.value
  }

  lemma EntriesNone(g: Graph)
    ensures Entries(g, []) == []
  {
  }

  lemma SkippedIs(e: Error, seen: set<nat>)
    ensures Skipped(e, seen) <==> e.Nil? || (e.identity.Some? && e.identity.value in seen)
  {
  }

  lemma ChildrenAre(g: Graph, n: ErrorNode)
    requires g(n.err).Error?
    ensures var children := g(n.err).children;
            ChildNodes(g, n) == seq(|children|, i requires 0 <= i < |children| => ErrorNode(children[i], n.branch + [i], n.depth + 1))
  {
  }

  lemma NothingLeft(g: Graph, w: Walk)
    requires |w.visits| <= MaxTraversed
    ensures VisitAll(g, Rev<ErrorNode>([]), w) == w
  {
  }

  /** The report, the compatibility entry and the flag. */
  ghost predicate Collected(g: Graph, root: nat, result: seq<Entry>, compatibility: Option<Entry>, truncated: bool) {
    var w := Traversal(g, root);
    var entries := Entries(g, w.visits);
    && result == Unnumber(First8(Ranking(entries)))
    && compatibility == Compatibility(entries)
    && truncated == (w.left != [] || |entries| > MaxReturned)
  }

  method CollectErrorDetails(g: Graph, root: nat)
    returns (result: seq<Entry>, compatibility: Option<Entry>, truncated: bool)
    ensures Collected(g, root, result, compatibility, truncated)
  {
    if g(root).Nil? {
      NilRoot(g, root);
      return [], None, false;
    }
    var entries;
    entries, compatibility, truncated := Traverse(g, root);
    var sorted := Ranking(entries);
    SortPermutes(Number(entries), Deeper);
    if |sorted| > MaxReturned {
      sorted := sorted[..MaxReturned];
      truncated := true;
    }
    result := Unnumber(sorted);
  }

  lemma NilRoot(g: Graph, root: nat)
    requires g(root).Nil?
    ensures Traversal(g, root) == Fresh
    ensures Unnumber(First8(Ranking([]))) == []
  {
    var n := ErrorNode(root, [], 0);
    assert [n][1..] == [];
    assert VisitAll(g, [n], Fresh) == VisitAll(g, [], Visit(g, n, Fresh));
    assert Number([]) == [];
    assert Ranking([]) == [];
  }
}
