/** What the collected error details are (internal/operationevent/errors.go:97-177). */
module ErrorReport {
  import opened Wrappers
  import opened Sorting
  import opened ErrorGraph

  // ---- Positions -----------------------------------------------------------------------------------

  /** The error that a branch leads to from `root`. */
  function Follow(g: Graph, root: nat, branch: seq<nat>): Option<nat> {
    if branch == [] then Some(root)
    else
      var parent, i := Follow(g, root, branch[..|branch| - 1]), branch[|branch| - 1];
      if parent.None? || g(parent.value).Nil? || i >= |g(parent.value).children| then None
      else Some(g(parent.value).children[i])
  }

  ghost predicate Placed(g: Graph, root: nat, n: ErrorNode) {
    n.depth == |n.branch| && Follow(g, root, n.branch) == Some(n.err)
  }

  ghost predicate AllPlaced(g: Graph, root: nat, ns: seq<ErrorNode>) {
    forall i | 0 <= i < |ns| :: Placed(g, root, ns[i])
  }

  lemma ChildrenPlaced(g: Graph, root: nat, n: ErrorNode)
    requires g(n.err).Error? && Placed(g, root, n)
    ensures AllPlaced(g, root, ChildNodes(g, n))
  {
    forall i | 0 <= i < |ChildNodes(g, n)| ensures Placed(g, root, ChildNodes(g, n)[i]) {
      assert (n.branch + [i])[..|n.branch|] == n.branch;
    }
  }

  // ---- Preorder ---------------------------------------------------------------------------------------

  /** `a` comes before `b` in preorder: it is a proper prefix, or smaller where they first differ. */
  ghost predicate Earlier(a: seq<nat>, b: seq<nat>) {
    a < b || exists k :: 0 <= k < |a| && k < |b| && a[..k] == b[..k] && a[k] < b[k]
  }

  ghost predicate Preorder(ns: seq<ErrorNode>) {
    forall i, j | 0 <= i < j < |ns| :: Earlier(ns[i].branch, ns[j].branch)
  }

  /** All nodes are below child `k` or a later child of `p`. */
  ghost predicate Below(ns: seq<ErrorNode>, p: seq<nat>, k: nat) {
    forall i | 0 <= i < |ns| :: p < ns[i].branch && ns[i].branch[|p|] >= k
  }

  lemma BelowFrom(ns: seq<ErrorNode>, p: seq<nat>, k: nat)
    requires forall i | 0 <= i < |ns| :: p + [k] <= ns[i].branch
    ensures Below(ns, p, k)
    ensures forall i | 0 <= i < |ns| :: ns[i].branch[|p|] == k
  {
    forall i | 0 <= i < |ns| ensures p < ns[i].branch && ns[i].branch[|p|] == k {
      assert (p + [k])[|p|] == k && p == (p + [k])[..|p|];
    }
  }

  lemma JoinPreorder(a: seq<ErrorNode>, b: seq<ErrorNode>, p: seq<nat>, k: nat)
    requires Preorder(a) && Preorder(b) && Below(b, p, k + 1)
    requires forall i | 0 <= i < |a| :: p + [k] <= a[i].branch
    ensures Preorder(a + b) && Below(a + b, p, k)
  {
    BelowFrom(a, p, k);
    forall i, j | 0 <= i < |a| && 0 <= j < |b| ensures Earlier(a[i].branch, b[j].branch) {
      var x, y := a[i].branch, b[j].branch;
      assert x[..|p|] == p == y[..|p|] && x[|p|] < y[|p|];
    }
  }

  /** The nodes that `r` visited after `w`. */
  function Since(w: Walk, r: Walk): seq<ErrorNode>
    requires w.visits <= r.visits
  {
    r.visits[|w.visits|..]
  }

  ghost predicate Subtree(ns: seq<ErrorNode>, p: seq<nat>) {
    Preorder(ns) && forall i | 0 <= i < |ns| :: p <= ns[i].branch
  }

  lemma SinceJoin(w: Walk, m: Walk, r: Walk)
    requires w.visits <= m.visits <= r.visits
    ensures Since(w, r) == Since(w, m) + Since(m, r)
  {
  }

  lemma NodeFirst(n: ErrorNode, below: seq<ErrorNode>)
    requires Preorder(below) && Below(below, n.branch, 0)
    ensures Subtree([n] + below, n.branch)
  {
  }

  lemma {:induction false} VisitInPreorder(g: Graph, n: ErrorNode, w: Walk)
    requires |w.visits| <= MaxTraversed
    ensures Subtree(Since(w, Visit(g, n, w)), n.branch)
    decreases MaxTraversed - |w.visits|, 0
  {
    if |w.visits| < MaxTraversed && !Skipped(g(n.err), w.seen) {
      var e := Enter(g, n, w);
      ChildrenInPreorder(g, n, 0, e);
      assert ChildNodes(g, n)[0..] == ChildNodes(g, n);
      SinceJoin(w, e, Visit(g, n, w));
      NodeFirst(n, Since(e, Visit(g, n, w)));
    }
  }

  lemma {:induction false} ChildrenInPreorder(g: Graph, n: ErrorNode, k: nat, w: Walk)
    requires |w.visits| <= MaxTraversed && g(n.err).Error? && k <= |ChildNodes(g, n)|
    ensures var since := Since(w, VisitAll(g, ChildNodes(g, n)[k..], w)); Preorder(since) && Below(since, n.branch, k)
    decreases MaxTraversed - |w.visits|, |ChildNodes(g, n)| - k
  {
    var c := ChildNodes(g, n);
    if k < |c| {
      assert c[k..][0] == c[k] && c[k..][1..] == c[k + 1..];
      var m := Visit(g, c[k], w);
      var r := VisitAll(g, c[k + 1..], m);
      VisitInPreorder(g, c[k], w);
      ChildrenInPreorder(g, n, k + 1, m);
      SinceJoin(w, m, r);
      JoinPreorder(Since(w, m), Since(m, r), n.branch, k);
    }
  }

  // ---- What a walk knows --------------------------------------------------------------------------------

  ghost predicate Seen(g: Graph, visits: seq<ErrorNode>, id: nat) {
    exists i :: 0 <= i < |visits| && g(visits[i].err).Error? && g(visits[i].err).identity == Some(id)
  }

  ghost predicate VisitedOnce(g: Graph, visits: seq<ErrorNode>) {
    forall i, j | 0 <= i < j < |visits| ::
      g(visits[i].err).Error? && g(visits[j].err).Error? && g(visits[i].err).identity.Some? ==>
        g(visits[i].err).identity != g(visits[j].err).identity
  }

  ghost predicate ValidWalk(g: Graph, root: nat, w: Walk) {
    && |w.visits| <= MaxTraversed && (w.left != [] ==> |w.visits| == MaxTraversed)
    && AllPlaced(g, root, w.visits) && AllPlaced(g, root, w.left)
    && (forall i | 0 <= i < |w.visits| :: g(w.visits[i].err).Error?)
    && (forall id :: id in w.seen <==> Seen(g, w.visits, id))
    && VisitedOnce(g, w.visits)
  }

  lemma EnterValid(g: Graph, root: nat, n: ErrorNode, w: Walk)
    requires ValidWalk(g, root, w) && |w.visits| < MaxTraversed && Placed(g, root, n) && !Skipped(g(n.err), w.seen)
    ensures ValidWalk(g, root, Enter(g, n, w))
  {
    var r := Enter(g, n, w);
    hide Placed;
    forall id ensures id in r.seen <==> Seen(g, r.visits, id) {
      if Seen(g, w.visits, id) {
        var i :| 0 <= i < |w.visits| && g(w.visits[i].err).Error? && g(w.visits[i].err).identity == Some(id);
        assert r.visits[i] == w.visits[i];
      }
      if g(n.err).identity == Some(id) {
        assert r.visits[|w.visits|] == n;
      }
    }
  }

  lemma {:induction false} VisitValid(g: Graph, root: nat, n: ErrorNode, w: Walk)
    requires ValidWalk(g, root, w) && Placed(g, root, n)
    ensures ValidWalk(g, root, Visit(g, n, w))
    decreases MaxTraversed - |w.visits|, 0
  {
    if |w.visits| < MaxTraversed && !Skipped(g(n.err), w.seen) {
      EnterValid(g, root, n, w);
      ChildrenPlaced(g, root, n);
      VisitAllValid(g, root, ChildNodes(g, n), Enter(g, n, w));
    }
  }

  lemma {:induction false} VisitAllValid(g: Graph, root: nat, ns: seq<ErrorNode>, w: Walk)
    requires ValidWalk(g, root, w) && AllPlaced(g, root, ns)
    ensures ValidWalk(g, root, VisitAll(g, ns, w))
    decreases MaxTraversed - |w.visits|, |ns|
  {
    if ns != [] {
      assert Placed(g, root, ns[0]);
      VisitValid(g, root, ns[0], w);
      VisitAllValid(g, root, ns[1..], Visit(g, ns[0], w));
    }
  }

  /** On every graph: at most 64 errors are visited, 64 if nodes were left; each at the place
      that its branch and depth say, none twice by identity, and in preorder. */
  lemma TraversalMeaning(g: Graph, root: nat)
    ensures ValidWalk(g, root, Traversal(g, root)) && Preorder(Traversal(g, root).visits)
    ensures var w := Traversal(g, root); |w.visits| <= 64 && (w.left != [] ==> |w.visits| == 64)
  {
    var n := ErrorNode(root, [], 0);
    assert Placed(g, root, n);
    VisitAllValid(g, root, [n], Fresh);
    assert [n][1..] == [];
    assert Traversal(g, root) == VisitAll(g, [], Visit(g, n, Fresh));
    VisitInPreorder(g, n, Fresh);
    assert Since(Fresh, Traversal(g, root)) == Traversal(g, root).visits;
  }

  // ---- Nothing is missed --------------------------------------------------------------------------------

  ghost predicate Covered(g: Graph, w: Walk, e: nat) {
    g(e).Nil? || (exists i :: 0 <= i < |w.visits| && w.visits[i].err == e) || (g(e).identity.Some? && g(e).identity.value in w.seen)
  }

  ghost predicate ChildrenCovered(g: Graph, w: Walk, e: nat) {
    g(e).Error? ==> forall i | 0 <= i < |g(e).children| :: Covered(g, w, g(e).children[i])
  }

  /** What the visited errors from `from` up to `to` wrap is covered. */
  ghost predicate Closed(g: Graph, w: Walk, from: nat, to: nat) {
    forall i | from <= i < to && i < |w.visits| :: ChildrenCovered(g, w, w.visits[i].err)
  }

  ghost predicate AllCovered(g: Graph, w: Walk, ns: seq<ErrorNode>) {
    forall i | 0 <= i < |ns| :: Covered(g, w, ns[i].err)
  }

  ghost predicate More(w: Walk, r: Walk) {
    w.visits <= r.visits && w.seen <= r.seen && w.left <= r.left
  }

  lemma {:induction false} VisitMore(g: Graph, n: ErrorNode, w: Walk)
    requires |w.visits| <= MaxTraversed
    ensures More(w, Visit(g, n, w))
    decreases MaxTraversed - |w.visits|, 0
  {
    if |w.visits| < MaxTraversed && !Skipped(g(n.err), w.seen) {
      VisitAllMore(g, ChildNodes(g, n), Enter(g, n, w));
    }
  }

  lemma {:induction false} VisitAllMore(g: Graph, ns: seq<ErrorNode>, w: Walk)
    requires |w.visits| <= MaxTraversed
    ensures More(w, VisitAll(g, ns, w))
    decreases MaxTraversed - |w.visits|, |ns|
  {
    if ns != [] {
      VisitMore(g, ns[0], w);
      VisitAllMore(g, ns[1..], Visit(g, ns[0], w));
    }
  }

  ghost predicate Leftover(w: Walk, e: nat) {
    exists i :: 0 <= i < |w.left| && w.left[i].err == e
  }

  /** The error was covered, or is left. */
  ghost predicate Settled(g: Graph, w: Walk, e: nat) {
    Covered(g, w, e) || Leftover(w, e)
  }

  ghost predicate ChildrenSettled(g: Graph, w: Walk, e: nat) {
    g(e).Error? ==> forall i | 0 <= i < |g(e).children| :: Settled(g, w, g(e).children[i])
  }

  /** What the visited errors from `from` up to `to` wrap is settled. */
  ghost predicate Done(g: Graph, w: Walk, from: nat, to: nat) {
    forall i | from <= i < to && i < |w.visits| :: ChildrenSettled(g, w, w.visits[i].err)
  }

  ghost predicate AllSettled(g: Graph, w: Walk, ns: seq<ErrorNode>) {
    forall i | 0 <= i < |ns| :: Settled(g, w, ns[i].err)
  }

  /** In the end, `z`, a node that was walked is settled, and so is what was visited below it. */
  lemma {:induction false} VisitSettles(g: Graph, n: ErrorNode, w: Walk, z: Walk)
    requires |w.visits| <= MaxTraversed && More(Visit(g, n, w), z)
    ensures Settled(g, z, n.err) && Done(g, z, |w.visits|, |Visit(g, n, w).visits|)
    decreases MaxTraversed - |w.visits|, 0
  {
    var r := Visit(g, n, w);
    VisitMore(g, n, w);
    if |w.visits| >= MaxTraversed {
      assert r.left[|w.left|] == n && z.left[|w.left|] == n;
    } else if !Skipped(g(n.err), w.seen) {
      var e, c := Enter(g, n, w), ChildNodes(g, n);
      VisitAllSettles(g, c, e, z);
      VisitAllMore(g, c, e);
      assert e.visits[|w.visits|] == n && r.visits[|w.visits|] == n && z.visits[|w.visits|] == n;
      hide Settled;
      forall i | 0 <= i < |g(n.err).children| ensures Settled(g, z, g(n.err).children[i]) {
        assert c[i].err == g(n.err).children[i];
      }
    }
  }

  lemma {:induction false} VisitAllSettles(g: Graph, ns: seq<ErrorNode>, w: Walk, z: Walk)
    requires |w.visits| <= MaxTraversed && More(VisitAll(g, ns, w), z)
    ensures AllSettled(g, z, ns) && Done(g, z, |w.visits|, |VisitAll(g, ns, w).visits|)
    decreases MaxTraversed - |w.visits|, |ns|
  {
    if ns != [] {
      var m := Visit(g, ns[0], w);
      VisitAllMore(g, ns[1..], m);
      VisitMore(g, ns[0], w);
      VisitSettles(g, ns[0], w, z);
      VisitAllSettles(g, ns[1..], m, z);
      hide Settled, ChildrenSettled;
      forall i | 0 <= i < |ns| ensures Settled(g, z, ns[i].err) {
        if i > 0 {
          assert ns[i] == ns[1..][i - 1];
        }
      }
    }
  }

  /** On every graph: the root and all that a visited error wraps are covered or left. */
  lemma WalkSettles(g: Graph, root: nat)
    ensures var w := Traversal(g, root); Settled(g, w, root) && Done(g, w, 0, |w.visits|)
  {
    var n := ErrorNode(root, [], 0);
    VisitAllSettles(g, [n], Fresh, Traversal(g, root));
    assert [n][0] == n;
  }

  /** If the nodes that were left are covered, as when there are none, the walk misses nothing: the root
      and all that a visited error wraps are nil, visited, or the same reference as a visited one. */
  lemma CoveredIsClosed(g: Graph, root: nat)
    ensures var w := Traversal(g, root);
            AllCovered(g, w, w.left) ==> Covered(g, w, root) && Closed(g, w, 0, |w.visits|)
  {
    var w := Traversal(g, root);
    WalkSettles(g, root);
    if AllCovered(g, w, w.left) {
      forall i | 0 <= i < |w.visits| ensures ChildrenCovered(g, w, w.visits[i].err) {
        assert ChildrenSettled(g, w, w.visits[i].err);
      }
    }
  }

  /** Different errors have different identities. */
  ghost predicate Faithful(g: Graph) {
    forall a: nat, b: nat :: g(a).Error? && g(b).Error? && g(a).identity.Some? && g(a).identity == g(b).identity ==> a == b
  }

  ghost predicate VisitedAt(w: Walk, e: nat, i: nat) {
    i < |w.visits| && w.visits[i].err == e
  }

  lemma CoveredVisited(g: Graph, root: nat, w: Walk, e: nat)
    requires ValidWalk(g, root, w) && Faithful(g) && Covered(g, w, e) && g(e).Error?
    ensures exists i :: VisitedAt(w, e, i)
  {
    if i :| 0 <= i < |w.visits| && w.visits[i].err == e {
      assert VisitedAt(w, e, i);
    }
  }

  /** So every error that some branch reaches is visited, and only once if it is a reference. */
  lemma {:induction false} ReachableVisited(g: Graph, root: nat, branch: seq<nat>)
    requires Faithful(g) && AllCovered(g, Traversal(g, root), Traversal(g, root).left)
    requires Follow(g, root, branch).Some? && g(Follow(g, root, branch).value).Error?
    ensures var w, e := Traversal(g, root), Follow(g, root, branch).value;
            && (exists i :: VisitedAt(w, e, i))
            && (g(e).identity.Some? ==> forall i, j :: VisitedAt(w, e, i) && VisitedAt(w, e, j) ==> i == j)
  {
    var w, e := Traversal(g, root), Follow(g, root, branch).value;
    TraversalMeaning(g, root);
    CoveredIsClosed(g, root);
    if branch != [] {
      var up := branch[..|branch| - 1];
      ReachableVisited(g, root, up);
      var i: nat :| VisitedAt(w, Follow(g, root, up).value, i);
      assert ChildrenCovered(g, w, w.visits[i].err);
    }
    CoveredVisited(g, root, w, e);
    if g(e).identity.Some? {
      forall i, j | VisitedAt(w, e, i) && VisitedAt(w, e, j) ensures i == j {
        assert VisitedOnce(g, w.visits);
      }
    }
  }

  /** A branch leads to an error that was neither visited nor is the same reference as a visited one. */
  ghost predicate Missed(g: Graph, root: nat, w: Walk, branch: seq<nat>) {
    Follow(g, root, branch).Some? && !Covered(g, w, Follow(g, root, branch).value)
  }

  /** The node is the root, or the node that it hangs from was visited. */
  ghost predicate Parented(w: Walk, n: ErrorNode) {
    n.branch == [] || exists i :: 0 <= i < |w.visits| && w.visits[i].branch == n.branch[..|n.branch| - 1]
  }

  ghost predicate AllParented(w: Walk, ns: seq<ErrorNode>) {
    forall i | 0 <= i < |ns| :: Parented(w, ns[i])
  }

  lemma ParentedMore(w: Walk, r: Walk, ns: seq<ErrorNode>)
    requires w.visits <= r.visits && AllParented(w, ns)
    ensures AllParented(r, ns)
  {
    forall i | 0 <= i < |ns| && ns[i].branch != [] ensures Parented(r, ns[i]) {
      assert Parented(w, ns[i]);
      var k :| 0 <= k < |w.visits| && w.visits[k].branch == ns[i].branch[..|ns[i].branch| - 1];
      assert r.visits[k] == w.visits[k];
    }
  }

  lemma ChildrenParented(g: Graph, n: ErrorNode, w: Walk)
    requires g(n.err).Error?
    ensures AllParented(Enter(g, n, w), ChildNodes(g, n))
  {
    var e := Enter(g, n, w);
    forall i | 0 <= i < |ChildNodes(g, n)| ensures Parented(e, ChildNodes(g, n)[i]) {
      assert e.visits[|w.visits|] == n && (n.branch + [i])[..|n.branch|] == n.branch;
    }
  }

  lemma {:induction false} VisitParented(g: Graph, n: ErrorNode, w: Walk)
    requires |w.visits| <= MaxTraversed && Parented(w, n) && AllParented(w, w.left)
    ensures AllParented(Visit(g, n, w), Visit(g, n, w).left)
    decreases MaxTraversed - |w.visits|, 0
  {
    if |w.visits| < MaxTraversed && !Skipped(g(n.err), w.seen) {
      ChildrenParented(g, n, w);
      ParentedMore(w, Enter(g, n, w), w.left);
      VisitAllParented(g, ChildNodes(g, n), Enter(g, n, w));
    } else {
      ParentedMore(w, Visit(g, n, w), w.left);
      ParentedMore(w, Visit(g, n, w), [n]);
      assert [n][0] == n;
    }
  }

  lemma {:induction false} VisitAllParented(g: Graph, ns: seq<ErrorNode>, w: Walk)
    requires |w.visits| <= MaxTraversed && AllParented(w, ns) && AllParented(w, w.left)
    ensures AllParented(VisitAll(g, ns, w), VisitAll(g, ns, w).left)
    decreases MaxTraversed - |w.visits|, |ns|
  {
    if ns != [] {
      var m := Visit(g, ns[0], w);
      VisitParented(g, ns[0], w);
      assert AllParented(w, ns[1..]);
      ParentedMore(w, m, ns[1..]);
      VisitAllParented(g, ns[1..], m);
    }
  }

  lemma LeftCovered(g: Graph, root: nat, n: ErrorNode)
    requires var w := Traversal(g, root); n in w.left && Covered(g, w, root) && Closed(g, w, 0, |w.visits|)
    ensures Covered(g, Traversal(g, root), n.err)
  {
    var w, start := Traversal(g, root), ErrorNode(root, [], 0);
    TraversalMeaning(g, root);
    assert Parented(Fresh, start);
    VisitAllParented(g, [start], Fresh);
    var k :| 0 <= k < |w.left| && w.left[k] == n;
    assert Placed(g, root, n) && Parented(w, n);
    if n.branch != [] {
      var i :| 0 <= i < |w.visits| && w.visits[i].branch == n.branch[..|n.branch| - 1];
      assert Placed(g, root, w.visits[i]) && ChildrenCovered(g, w, w.visits[i].err);
    }
  }

  /** On every graph, nothing is missing next to what was visited exactly if the nodes left are covered. */
  lemma LeftExact(g: Graph, root: nat)
    ensures var w := Traversal(g, root);
            AllCovered(g, w, w.left) <==> Covered(g, w, root) && Closed(g, w, 0, |w.visits|)
  {
    var w := Traversal(g, root);
    CoveredIsClosed(g, root);
    if Covered(g, w, root) && Closed(g, w, 0, |w.visits|) {
      forall k | 0 <= k < |w.left| ensures Covered(g, w, w.left[k].err) {
        LeftCovered(g, root, w.left[k]);
      }
    }
  }

  /** Nodes are left only when 64 errors were visited; and then the walk misses an error exactly if one of
      the nodes left is neither nil, nor visited elsewhere, nor the same reference as a visited error. */
  lemma MissedExact(g: Graph, root: nat)
    requires Faithful(g)
    ensures var w := Traversal(g, root);
            && (w.left != [] ==> |w.visits| == MaxTraversed)
            && ((exists branch :: Missed(g, root, w, branch)) <==> !AllCovered(g, w, w.left))
  {
    var w := Traversal(g, root);
    TraversalMeaning(g, root);
    if AllCovered(g, w, w.left) {
      forall branch ensures !Missed(g, root, w, branch) {
        if Follow(g, root, branch).Some? && g(Follow(g, root, branch).value).Error? {
          ReachableVisited(g, root, branch);
          var i: nat :| VisitedAt(w, Follow(g, root, branch).value, i);
        }
      }
    } else {
      var i :| 0 <= i < |w.left| && !Covered(g, w, w.left[i].err);
      assert Placed(g, root, w.left[i]);
      assert Missed(g, root, w, w.left[i].branch);
    }
  }

  // ---- The report ------------------------------------------------------------------------------------------

  /** `at` lists, in order, the visits that have details; they are the entries. */
  ghost predicate EntriesAt(g: Graph, visits: seq<ErrorNode>, entries: seq<Entry>, at: seq<nat>) {
    && |at| == |entries|
    && (forall j, k | 0 <= j < k < |at| :: at[j] < at[k])
    && (forall k | 0 <= k < |at| :: at[k] < |visits| && HasDetails(g(visits[at[k]].err))
          && entries[k] == Entry(DetailsOf(g(visits[at[k]].err)), visits[at[k]].branch, visits[at[k]].depth))
    && (forall i | 0 <= i < |visits| :: HasDetails(g(visits[i].err)) ==> i in at)
  }

  lemma EntriesAtNext(g: Graph, visits: seq<ErrorNode>, n: ErrorNode, entries: seq<Entry>, at: seq<nat>)
    requires EntriesAt(g, visits, entries, at)
    ensures HasDetails(g(n.err)) ==>
              EntriesAt(g, visits + [n], entries + [Entry(DetailsOf(g(n.err)), n.branch, n.depth)], at + [|visits|])
    ensures !HasDetails(g(n.err)) ==> EntriesAt(g, visits + [n], entries, at)
  {
    hide HasDetails;
    forall i | 0 <= i < |visits| && HasDetails(g(visits[i].err)) ensures i in at + [|visits|] {
      assert i in at;
    }
  }

  lemma EntriesLast(g: Graph, visits: seq<ErrorNode>, n: ErrorNode)
    ensures HasDetails(g(n.err)) ==>
              Entries(g, visits + [n]) == Entries(g, visits) + [Entry(DetailsOf(g(n.err)), n.branch, n.depth)]
    ensures !HasDetails(g(n.err)) ==> Entries(g, visits + [n]) == Entries(g, visits)
  {
    EntriesNext(g, visits, n);
  }

  ghost predicate EntriesListed(g: Graph, visits: seq<ErrorNode>) {
    exists at :: EntriesAt(g, visits, Entries(g, visits), at)
  }

  lemma ListedBy(g: Graph, visits: seq<ErrorNode>, at: seq<nat>)
    requires EntriesAt(g, visits, Entries(g, visits), at)
    ensures EntriesListed(g, visits)
  {
  }

  lemma EntriesListedNext(g: Graph, visits: seq<ErrorNode>, n: ErrorNode)
    requires EntriesListed(g, visits)
    ensures EntriesListed(g, visits + [n])
  {
    var at: seq<nat> :| EntriesAt(g, visits, Entries(g, visits), at);
    hide *;
    EntriesAtNext(g, visits, n, Entries(g, visits), at);
    EntriesLast(g, visits, n);
    ListedBy(g, visits + [n], if HasDetails(g(n.err)) then at + [|visits|] else at);
  }

  /** Exactly one entry for each visited error with details, in the order of the visits. */
  lemma {:induction false} EntriesMeaning(g: Graph, visits: seq<ErrorNode>)
    ensures EntriesListed(g, visits)
  {
    if visits == [] {
      assert EntriesAt(g, visits, Entries(g, visits), []);
    } else {
      hide *;
      EntriesMeaning(g, visits[..|visits| - 1]);
      EntriesListedNext(g, visits[..|visits| - 1], visits[|visits| - 1]);
      assert visits == visits[..|visits| - 1] + [visits[|visits| - 1]];
    }
  }

  ghost predicate Unlisted(s: seq<Ordered>, o: Ordered) {
    o !in s && |s| == MaxReturned && forall i | 0 <= i < |s| :: Deeper(s[i], o)
  }

  lemma DeeperOrders(entries: seq<Entry>)
    ensures Orders(Deeper, Number(entries))
    ensures forall x, y | x in Number(entries) && y in Number(entries) && x != y :: Deeper(x, y) || Deeper(y, x)
  {
  }

  lemma {:induction false} NumberedOnce(entries: seq<Entry>, o: Ordered)
    ensures multiset(Number(entries))[o] <= 1
  {
    if entries != [] {
      var front := entries[..|entries| - 1];
      NumberedOnce(front, o);
      assert Number(entries) == Number(front) + [Ordered(entries[|front|], |front|)];
      if multiset(Number(front))[o] == 1 {
        assert o in Number(front);
        assert o.order < |front|;
      }
    }
  }

  lemma RankingSorted(entries: seq<Entry>)
    ensures var s := Ranking(entries);
            && |s| == |entries|
            && (forall o :: o in s <==> o in Number(entries))
            && (forall i, j | 0 <= i < j < |s| :: Deeper(s[i], s[j]))
  {
    var all, s := Number(entries), Ranking(entries);
    DeeperOrders(entries);
    SortSorts(all, Deeper, all);
    SortPermutes(all, Deeper);
    hide Deeper, Number, StableSort;
    forall i, j | 0 <= i < j < |s| ensures Deeper(s[i], s[j]) {
      assert s[i] in s && s[j] in s;
      if s[i] == s[j] {
        TwiceCounted(s, i, j);
        NumberedOnce(entries, s[i]);
      }
    }
  }

  /** The report holds the first eight entries by decreasing depth and then preorder; an entry that it
      does not hold comes after all that it holds. */
  lemma ReportOrder(entries: seq<Entry>)
    ensures var s := First8(Ranking(entries));
            && |s| == (if |entries| < MaxReturned then |entries| else MaxReturned)
            && (forall i, j | 0 <= i < j < |s| :: Deeper(s[i], s[j]))
            && (forall i | 0 <= i < |s| :: s[i].order < |entries| && s[i].entry == entries[s[i].order])
            && (forall k | 0 <= k < |entries| :: Ordered(entries[k], k) in s || Unlisted(s, Ordered(entries[k], k)))
  {
    RankingSorted(entries);
    var r, s := Ranking(entries), First8(Ranking(entries));
    assert forall i | 0 <= i < |s| :: s[i] == r[i] && s[i] in r;
    forall k | 0 <= k < |entries| && Ordered(entries[k], k) !in s ensures Unlisted(s, Ordered(entries[k], k)) {
      var o := Ordered(entries[k], k);
      assert Number(entries)[k] == o && o in Number(entries) && o in r;
      var j :| 0 <= j < |r| && r[j] == o;
      assert |s| <= j;
    }
  }

  // ---- The flag -----------------------------------------------------------------------------------------------

  /** An error and the errors that it leads to. */
  lemma {:induction false} FollowFrom(g: Graph, root: nat, branch: seq<nat>, tail: seq<nat>)
    requires Follow(g, root, branch).Some?
    ensures Follow(g, root, branch + tail) == Follow(g, Follow(g, root, branch).value, tail)
  {
    if tail == [] {
      assert branch + tail == branch;
    } else {
      var front := tail[..|tail| - 1];
      FollowFrom(g, root, branch, front);
      assert (branch + tail)[..|branch + tail| - 1] == branch + front;
    }
  }

  /** Following `tail` from the node left at place `k` leads to `e`. */
  ghost predicate Behind(g: Graph, w: Walk, k: nat, tail: seq<nat>, e: nat) {
    k < |w.left| && Follow(g, w.left[k].err, tail) == Some(e)
  }

  ghost predicate Found(g: Graph, w: Walk, e: nat) {
    (exists i :: VisitedAt(w, e, i)) || exists k, tail :: Behind(g, w, k, tail, e)
  }

  lemma SettledFound(g: Graph, root: nat, w: Walk, e: nat)
    requires ValidWalk(g, root, w) && Faithful(g) && Settled(g, w, e) && g(e).Error?
    ensures Found(g, w, e)
  {
    if Covered(g, w, e) {
      CoveredVisited(g, root, w, e);
    } else {
      var k :| 0 <= k < |w.left| && w.left[k].err == e;
      assert Behind(g, w, k, [], e);
    }
  }

  /** Every error that a branch reaches was visited, or lies behind a node that was left. */
  lemma {:induction false} ReachableFound(g: Graph, root: nat, branch: seq<nat>)
    requires Faithful(g) && Follow(g, root, branch).Some? && g(Follow(g, root, branch).value).Error?
    ensures Found(g, Traversal(g, root), Follow(g, root, branch).value)
  {
    var w, e := Traversal(g, root), Follow(g, root, branch).value;
    TraversalMeaning(g, root);
    WalkSettles(g, root);
    if branch == [] {
      SettledFound(g, root, w, e);
    } else {
      var up, last := Follow(g, root, branch[..|branch| - 1]).value, branch[|branch| - 1];
      ReachableFound(g, root, branch[..|branch| - 1]);
      if i: nat :| VisitedAt(w, up, i) {
        assert ChildrenSettled(g, w, w.visits[i].err);
        SettledFound(g, root, w, e);
      } else {
        var k: nat, tail: seq<nat> :| Behind(g, w, k, tail, up);
        assert (tail + [last])[..|tail|] == tail;
        assert Behind(g, w, k, tail + [last], e);
      }
    }
  }

  ghost predicate Reported(result: seq<Entry>, branch: seq<nat>) {
    exists k :: 0 <= k < |result| && result[k].branch == branch
  }

  ghost predicate VisitedFrom(w: Walk, branch: seq<nat>) {
    exists i :: 0 <= i < |w.visits| && w.visits[i].branch == branch
  }

  /** The branch leads to an error with details that was not reached, nor any reference that is the same;
      or that was visited at the branch and is not reported. */
  ghost predicate Omitted(g: Graph, root: nat, result: seq<Entry>, branch: seq<nat>) {
    var w, e := Traversal(g, root), Follow(g, root, branch);
    && e.Some? && HasDetails(g(e.value))
    && (!Covered(g, w, e.value) || (VisitedFrom(w, branch) && !Reported(result, branch)))
  }

  /** Behind the node left at place `k` is an error with details that was not reached. */
  ghost predicate Cut(g: Graph, w: Walk, k: nat, tail: seq<nat>) {
    k < |w.left| && Follow(g, w.left[k].err, tail).Some?
    && HasDetails(g(Follow(g, w.left[k].err, tail).value)) && !Covered(g, w, Follow(g, w.left[k].err, tail).value)
  }

  lemma EntriesApart(g: Graph, visits: seq<ErrorNode>)
    requires Preorder(visits)
    ensures forall j, k | 0 <= j < |Entries(g, visits)| && 0 <= k < |Entries(g, visits)| && j != k ::
              Entries(g, visits)[j].branch != Entries(g, visits)[k].branch
    ensures forall k | 0 <= k < |Entries(g, visits)| :: EntryOf(g, visits, Entries(g, visits)[k].branch)
    ensures forall i | 0 <= i < |visits| && HasDetails(g(visits[i].err)) :: Reported(Entries(g, visits), visits[i].branch)
  {
    var entries := Entries(g, visits);
    EntriesMeaning(g, visits);
    var at: seq<nat> :| EntriesAt(g, visits, entries, at);
    hide HasDetails, Entries;
    forall j, k | 0 <= j < k < |entries| ensures entries[j].branch != entries[k].branch {
      assert Earlier(visits[at[j]].branch, visits[at[k]].branch);
    }
    forall i | 0 <= i < |visits| && HasDetails(g(visits[i].err)) ensures Reported(entries, visits[i].branch) {
      assert i in at;
      var k :| 0 <= k < |at| && at[k] == i;
      assert entries[k].branch == visits[i].branch;
    }
  }

  /** An error with details was visited at the branch. */
  ghost predicate EntryOf(g: Graph, visits: seq<ErrorNode>, branch: seq<nat>) {
    exists i :: 0 <= i < |visits| && visits[i].branch == branch && HasDetails(g(visits[i].err))
  }

  /** A ninth entry is not reported. */
  lemma NinthUnreported(entries: seq<Entry>)
    requires |entries| > MaxReturned
    requires forall j, k | 0 <= j < |entries| && 0 <= k < |entries| && j != k :: entries[j].branch != entries[k].branch
    ensures exists k :: 0 <= k < |entries| && !Reported(Unnumber(First8(Ranking(entries))), entries[k].branch)
  {
    var r, s := Ranking(entries), First8(Ranking(entries));
    RankingSorted(entries);
    hide Ranking;
    assert r[MaxReturned] in r && r[MaxReturned] in Number(entries);
    var k := r[MaxReturned].order;
    forall i | 0 <= i < |s| ensures s[i].entry.branch != entries[k].branch {
      assert r[i] in r && r[i] in Number(entries) && Deeper(r[i], r[MaxReturned]);
    }
  }

  lemma FewReported(entries: seq<Entry>, branch: seq<nat>)
    requires |entries| <= MaxReturned && Reported(entries, branch)
    ensures Reported(Unnumber(First8(Ranking(entries))), branch)
  {
    RankingSorted(entries);
    var k :| 0 <= k < |entries| && entries[k].branch == branch;
    var o, r := Ordered(entries[k], k), Ranking(entries);
    assert Number(entries)[k] == o && o in Number(entries) && o in r;
    var i :| 0 <= i < |r| && r[i] == o;
    assert Unnumber(First8(r))[i].branch == branch;
  }

  /** Of what was visited something is not reported exactly if there are more than eight entries. */
  lemma UnreportedExact(g: Graph, root: nat, result: seq<Entry>)
    requires result == Unnumber(First8(Ranking(Entries(g, Traversal(g, root).visits))))
    ensures (exists branch :: EntryOf(g, Traversal(g, root).visits, branch) && !Reported(result, branch)) <==>
            |Entries(g, Traversal(g, root).visits)| > MaxReturned
  {
    var visits := Traversal(g, root).visits;
    var entries := Entries(g, visits);
    TraversalMeaning(g, root);
    EntriesApart(g, visits);
    hide Ranking, Traversal, Entries;
    if |entries| > MaxReturned {
      NinthUnreported(entries);
      var k :| 0 <= k < |entries| && !Reported(result, entries[k].branch);
      assert EntryOf(g, visits, entries[k].branch);
    } else {
      forall branch | EntryOf(g, visits, branch) ensures Reported(result, branch) {
        var i :| 0 <= i < |visits| && visits[i].branch == branch && HasDetails(g(visits[i].err));
        FewReported(entries, branch);
      }
    }
  }

  lemma VisitedOmitted(g: Graph, root: nat, result: seq<Entry>, branch: seq<nat>)
    ensures EntryOf(g, Traversal(g, root).visits, branch) && !Reported(result, branch) ==> Omitted(g, root, result, branch)
    ensures Omitted(g, root, result, branch) && Covered(g, Traversal(g, root), Follow(g, root, branch).value) ==>
              EntryOf(g, Traversal(g, root).visits, branch) && !Reported(result, branch)
  {
    var w := Traversal(g, root);
    TraversalMeaning(g, root);
    hide Traversal, HasDetails, Covered, Reported;
    forall i | 0 <= i < |w.visits| && w.visits[i].branch == branch ensures Follow(g, root, branch) == Some(w.visits[i].err) {
      assert Placed(g, root, w.visits[i]);
    }
  }

  lemma CutOmitted(g: Graph, root: nat, result: seq<Entry>, k: nat, tail: seq<nat>)
    requires Cut(g, Traversal(g, root), k, tail)
    ensures Omitted(g, root, result, Traversal(g, root).left[k].branch + tail)
  {
    TraversalMeaning(g, root);
    var w := Traversal(g, root);
    assert Placed(g, root, w.left[k]);
    FollowFrom(g, root, w.left[k].branch, tail);
  }

  lemma OmittedCut(g: Graph, root: nat, result: seq<Entry>, branch: seq<nat>)
    requires Faithful(g) && Omitted(g, root, result, branch) && !Covered(g, Traversal(g, root), Follow(g, root, branch).value)
    ensures exists k, tail :: Cut(g, Traversal(g, root), k, tail)
  {
    var w, e := Traversal(g, root), Follow(g, root, branch).value;
    ReachableFound(g, root, branch);
    assert forall i :: !VisitedAt(w, e, i);
    var k: nat, tail: seq<nat> :| Behind(g, w, k, tail, e);
    assert Cut(g, w, k, tail);
  }

  /** Exactly when the flag is due: details are missing from the report if and only if there are more than eight
      entries, or an error with details lies behind a node that was left and was not reached otherwise.  So
      details are never missing without the flag, and the flag is right unless it is set for nodes with no
      such error behind them. */
  lemma TruncationExact(g: Graph, root: nat, result: seq<Entry>, compatibility: Option<Entry>, truncated: bool)
    requires Faithful(g) && Collected(g, root, result, compatibility, truncated)
    ensures var w := Traversal(g, root);
            var many := |Entries(g, w.visits)| > MaxReturned;
            var missing := exists branch :: Omitted(g, root, result, branch);
            && (missing <==> many || exists k, tail :: Cut(g, w, k, tail))
            && (missing ==> truncated)
            && ((truncated <==> missing) <==> w.left == [] || many || exists k, tail :: Cut(g, w, k, tail))
  {
    var w := Traversal(g, root);
    UnreportedExact(g, root, result);
    hide Traversal, Entries, Ranking;
    if exists branch :: Omitted(g, root, result, branch) {
      var branch :| Omitted(g, root, result, branch);
      VisitedOmitted(g, root, result, branch);
      if !Covered(g, w, Follow(g, root, branch).value) {
        OmittedCut(g, root, result, branch);
      }
    }
    if |Entries(g, w.visits)| > MaxReturned {
      var branch :| EntryOf(g, w.visits, branch) && !Reported(result, branch);
      VisitedOmitted(g, root, result, branch);
    }
    if exists k, tail :: Cut(g, w, k, tail) {
      var k: nat, tail: seq<nat> :| Cut(g, w, k, tail);
      CutOmitted(g, root, result, k, tail);
    }
  }

  /** A chain of wrapped errors, the last of which wraps nil; only the first has details. */
  function Chain(length: nat): Graph {
    (e: nat) => if e < length then Error(Some(e), if e == 0 then Some(Details("t", "", "", None)) else None, [e + 1]) else Nil
  }

  ghost predicate InChain(visits: seq<ErrorNode>) {
    forall i | 0 <= i < |visits| :: visits[i].err == i
  }

  lemma {:induction false} ChainCut(length: nat, n: ErrorNode, w: Walk)
    requires length >= MaxTraversed && n.err == |w.visits| <= MaxTraversed && InChain(w.visits) && w.left == []
    requires forall id: nat :: id in w.seen <==> id < n.err
    ensures var r := VisitAll(Chain(length), [n], w);
            && |r.left| == 1 && r.left[0].err == MaxTraversed
            && |r.visits| == MaxTraversed && InChain(r.visits) && forall id: nat :: id in r.seen <==> id < MaxTraversed
    decreases MaxTraversed - |w.visits|
  {
    var g := Chain(length);
    assert [n][1..] == [];
    assert VisitAll(g, [n], w) == Visit(g, n, w);
    if n.err < MaxTraversed {
      var child := ErrorNode(n.err + 1, n.branch + [0], n.depth + 1);
      assert ChildNodes(g, n) == [child];
      ChainCut(length, child, Enter(g, n, w));
    }
  }

  /** The flag can be wrong: the walk of a chain of 64 errors is cut for a nil that is left, though it
      visited every error. */
  lemma TruncatedThoughComplete()
    ensures var g, w := Chain(MaxTraversed), Traversal(Chain(MaxTraversed), 0);
            w.left != [] && AllCovered(g, w, w.left) && forall e: nat :: Covered(g, w, e)
  {
    ChainCut(MaxTraversed, ErrorNode(0, [], 0), Fresh);
  }

  lemma ChainEntries(length: nat, visits: seq<ErrorNode>)
    requires InChain(visits)
    ensures |Entries(Chain(length), visits)| <= 1
  {
    var g := Chain(length);
    EntriesMeaning(g, visits);
    var at: seq<nat> :| EntriesAt(g, visits, Entries(g, visits), at);
    assert forall e: nat | HasDetails(g(e)) :: e == 0;
    hide Entries, HasDetails, Chain;
    forall k | 0 <= k < |at| ensures at[k] == 0 {
      assert visits[at[k]].err == at[k];
    }
  }

  lemma ChainDetails(length: nat, w: Walk)
    requires InChain(w.visits) && w.visits != []
    ensures forall k, tail :: !Cut(Chain(length), w, k, tail)
  {
    assert w.visits[0].err == 0 && Covered(Chain(length), w, 0);
    forall k: nat, tail: seq<nat> ensures !Cut(Chain(length), w, k, tail) {
      assert forall e: nat :: HasDetails(Chain(length)(e)) ==> e == 0;
    }
  }

  lemma ChainWalk(length: nat)
    requires length >= MaxTraversed
    ensures var w := Traversal(Chain(length), 0);
            && |w.left| == 1 && w.left[0].err == MaxTraversed && w.visits != [] && InChain(w.visits)
            && (Covered(Chain(length), w, MaxTraversed) <==> length == MaxTraversed)
  {
    ChainCut(length, ErrorNode(0, [], 0), Fresh);
  }

  /** It can be wrong though errors are missed: of a longer chain the others are left, and have no details. */
  lemma TruncatedThoughReported(length: nat, result: seq<Entry>, compatibility: Option<Entry>, truncated: bool)
    requires length > MaxTraversed && Collected(Chain(length), 0, result, compatibility, truncated)
    ensures var g, w := Chain(length), Traversal(Chain(length), 0);
            && truncated && !AllCovered(g, w, w.left) && forall branch :: !Omitted(g, 0, result, branch)
  {
    var g, w := Chain(length), Traversal(Chain(length), 0);
    ChainWalk(length);
    ChainEntries(length, w.visits);
    ChainDetails(length, w);
    assert Faithful(g);
    hide Traversal, Entries, Omitted, Cut, Covered, Faithful, Chain;
    TruncationExact(g, 0, result, compatibility, truncated);
  }

  // ---- The outcome in terms of the visits -----------------------------------------------------------------------

  /** The error carries details that say something. */
  ghost predicate Detailed(g: Graph, e: nat) {
    && g(e).Error? && g(e).detailer.Some?
    && (g(e).detailer.value.errorType != "" || g(e).detailer.value.errorCode != "" || g(e).detailer.value.reason != ""
        || g(e).detailer.value.provider != None)
  }

  /** The entry holds the details of the visited error, and where it is. */
  ghost predicate Describes(g: Graph, x: Entry, n: ErrorNode) {
    Detailed(g, n.err) && x == Entry(g(n.err).detailer.value, n.branch, n.depth)
  }

  /** Deeper errors first, and among equally deep ones in preorder. */
  ghost predicate ReportedBefore(depth: nat, branch: seq<nat>, x: Entry) {
    depth > x.depth || (depth == x.depth && Earlier(branch, x.branch))
  }

  /** `at` lists the visits that the entries describe, all that have details, in order. */
  ghost predicate DescribedAt(g: Graph, visits: seq<ErrorNode>, entries: seq<Entry>, at: seq<nat>) {
    && |at| == |entries|
    && (forall j, k | 0 <= j < k < |at| :: at[j] < at[k])
    && (forall k | 0 <= k < |at| :: at[k] < |visits| && Describes(g, entries[k], visits[at[k]]))
    && (forall i | 0 <= i < |visits| && Detailed(g, visits[i].err) :: i in at)
  }

  lemma EntriesDescribed(g: Graph, visits: seq<ErrorNode>) returns (at: seq<nat>)
    ensures DescribedAt(g, visits, Entries(g, visits), at)
  {
    EntriesMeaning(g, visits);
    at :| EntriesAt(g, visits, Entries(g, visits), at);
    forall i | 0 <= i < |visits| ensures HasDetails(g(visits[i].err)) <==> Detailed(g, visits[i].err) {}
    hide HasDetails, Detailed, Entries;
  }

  /** The ranking orders the entries as the report is to be ordered. */
  lemma RankedBefore(g: Graph, visits: seq<ErrorNode>, entries: seq<Entry>, at: seq<nat>, a: Ordered, b: Ordered)
    requires Preorder(visits) && DescribedAt(g, visits, entries, at) && a in Number(entries) && b in Number(entries) && Deeper(a, b)
    ensures ReportedBefore(a.entry.depth, a.entry.branch, b.entry)
  {
    hide Detailed;
    if a.entry.depth == b.entry.depth {
      assert at[a.order] < at[b.order];
      assert Earlier(visits[at[a.order]].branch, visits[at[b.order]].branch);
    }
  }

  ghost predicate SomeDescribed(g: Graph, visits: seq<ErrorNode>, x: Entry) {
    exists i :: 0 <= i < |visits| && Describes(g, x, visits[i])
  }

  /** It is in the report, or all of a full report comes before it. */
  ghost predicate ReportedOrBehind(result: seq<Entry>, x: Entry) {
    x in result || (|result| == 8 && forall y | y in result :: ReportedBefore(y.depth, y.branch, x))
  }

  lemma ReportFrom(g: Graph, visits: seq<ErrorNode>, entries: seq<Entry>, at: seq<nat>)
    requires Preorder(visits) && DescribedAt(g, visits, entries, at)
    ensures var result := Unnumber(First8(Ranking(entries)));
            && |result| <= 8
            && (forall x | x in result :: x in entries)
            && (forall j, k | 0 <= j < k < |result| :: ReportedBefore(result[j].depth, result[j].branch, result[k]))
            && (forall x | x in entries :: ReportedOrBehind(result, x))
  {
    RankingSorted(entries);
    hide Ranking, Deeper, ReportedBefore, DescribedAt;
    var r, result := Ranking(entries), Unnumber(First8(Ranking(entries)));
    assert |result| == (if |r| > 8 then 8 else |r|) && forall j | 0 <= j < |result| :: result[j] == r[j].entry;
    forall j | 0 <= j < |r| ensures r[j] in Number(entries) && r[j].entry in entries {
      assert r[j] in r;
      NumberIs(entries, r[j]);
    }
    forall j, k | 0 <= j < k < |r| ensures ReportedBefore(r[j].entry.depth, r[j].entry.branch, r[k].entry) {
      RankedBefore(g, visits, entries, at, r[j], r[k]);
    }
    forall x | x in entries ensures ReportedOrBehind(result, x) {
      var k :| 0 <= k < |entries| && entries[k] == x;
      assert Number(entries)[k] == Ordered(x, k) && Ordered(x, k) in r;
      var j :| 0 <= j < |r| && r[j] == Ordered(x, k);
      assert j < |result| ==> result[j] in result;
    }
  }

  lemma NumberIs(entries: seq<Entry>, o: Ordered)
    requires o in Number(entries)
    ensures o.entry in entries
  {
  }

  /** The report: at most eight entries, each of a visited error with details, deeper ones first and then in preorder; and
      the details of every other visited error come behind a full report. */
  lemma ReportMeaning(g: Graph, root: nat, result: seq<Entry>, compatibility: Option<Entry>, truncated: bool)
    requires Collected(g, root, result, compatibility, truncated)
    ensures var visits := Traversal(g, root).visits;
            && |result| <= 8
            && (forall x | x in result :: SomeDescribed(g, visits, x))
            && (forall j, k | 0 <= j < k < |result| :: ReportedBefore(result[j].depth, result[j].branch, result[k]))
            && (forall i, x | 0 <= i < |visits| && Describes(g, x, visits[i]) :: ReportedOrBehind(result, x))
  {
    hide Traversal, Entries, Ranking, Unnumber, First8, ReportedOrBehind, ReportedBefore, Detailed, Preorder, ValidWalk;
    var visits := Traversal(g, root).visits;
    var entries := Entries(g, visits);
    TraversalMeaning(g, root);
    var at := EntriesDescribed(g, visits);
    ReportFrom(g, visits, entries, at);
    assert result == Unnumber(First8(Ranking(entries)));
    forall x | x in result ensures SomeDescribed(g, visits, x) {
      var k :| 0 <= k < |entries| && entries[k] == x;
      assert Describes(g, x, visits[at[k]]);
    }
    forall i, x | 0 <= i < |visits| && Describes(g, x, visits[i]) ensures x in entries {
      var k :| 0 <= k < |at| && at[k] == i;
      assert entries[k] == x;
    }
  }

  /** The compatibility entry: that of the first visited error with details, and none if and only if there is none. */
  lemma CompatibilityMeaning(g: Graph, root: nat, result: seq<Entry>, compatibility: Option<Entry>, truncated: bool)
    requires Collected(g, root, result, compatibility, truncated)
    ensures var visits := Traversal(g, root).visits;
            && (compatibility.None? <==> forall i | 0 <= i < |visits| :: !Detailed(g, visits[i].err))
            && (compatibility.Some? ==>
                  exists i :: 0 <= i < |visits| && Describes(g, compatibility.value, visits[i])
                              && forall j | 0 <= j < i :: !Detailed(g, visits[j].err))
  {
    hide Traversal, Entries, Detailed;
    var visits := Traversal(g, root).visits;
    var entries := Entries(g, visits);
    var at := EntriesDescribed(g, visits);
    assert compatibility == Compatibility(entries);
    if entries != [] {
      assert compatibility == Some(entries[0]) && Describes(g, entries[0], visits[at[0]]);
      forall j | 0 <= j < at[0] ensures !Detailed(g, visits[j].err) {
        assert j !in at;
      }
    }
  }

  // ---- Branch labels --------------------------------------------------------------------------------------------

  /** The code point that a rune becomes in a string. */
  function Rune(x: nat): nat {
    if 0xD800 <= x <= 0xDFFF || x > 0x10FFFF then 0xFFFD else x
  }

  /** The label of a child index: meant for indices below 100. */
  function Label(i: nat): seq<nat> {
    if i < 10 then [Rune(48 + i)] else [Rune(48 + i / 10), Rune(48 + i % 10)]
  }

  /** The rendered branch: labels joined by dots. */
  function BranchLabel(branch: seq<nat>): seq<nat> {
    if branch == [] then []
    else
      var front, last := branch[..|branch| - 1], Label(branch[|branch| - 1]);
      if front == [] then last else BranchLabel(front) + [46] + last
  }

  /** Below 100 a label is the decimal numeral. */
  lemma LabelMeaning(i: nat)
    requires i < 100
    ensures BranchLabel([i]) ==
            if i < 10 then ["0123456789"[i] as int] else ["0123456789"[i / 10] as int, "0123456789"[i % 10] as int]
    ensures forall branch | branch != [] :: BranchLabel(branch + [i]) == BranchLabel(branch) + ['.' as int] + BranchLabel([i])
  {
    assert [i][..0] == [];
    forall branch | branch != [] ensures BranchLabel(branch + [i]) == BranchLabel(branch) + ['.' as int] + BranchLabel([i]) {
      assert (branch + [i])[..|branch|] == branch;
    }
  }

  ghost predicate IndicesBelow(branch: seq<nat>, n: nat) {
    forall k | 0 <= k < |branch| :: branch[k] < n
  }

  lemma LabelInjective(i: nat, j: nat)
    requires i < 552490 && j < 552490
    ensures Label(i) == Label(j) ==> i == j
    ensures forall k | 0 <= k < |Label(i)| :: Label(i)[k] >= 48
  {
    if Label(i) == Label(j) && i >= 10 {
      assert i / 10 == j / 10 && i % 10 == j % 10;
    }
  }

  lemma SplitLabel(p: seq<nat>, x: seq<nat>, q: seq<nat>, y: seq<nat>)
    requires p + [46] + x == q + [46] + y
    requires (forall k | 0 <= k < |x| :: x[k] >= 48) && forall k | 0 <= k < |y| :: y[k] >= 48
    ensures p == q && x == y
  {
    var s := p + [46] + x;
    assert s[|p|] == 46 && s[|q|] == 46;
    assert forall k | |p| < k < |s| :: s[k] == x[k - |p| - 1] && s[k] >= 48;
    assert forall k | |q| < k < |s| :: s[k] == (q + [46] + y)[k] == y[k - |q| - 1] && s[k] >= 48;
    assert |p| == |q|;
    assert s[..|p|] == p && s[..|q|] == q && s[|p| + 1..] == x && s[|q| + 1..] == y;
  }

  lemma UndottedLabel(x: seq<nat>, q: seq<nat>, y: seq<nat>)
    requires forall k | 0 <= k < |x| :: x[k] >= 48
    ensures x != q + [46] + y
  {
    assert (q + [46] + y)[|q|] == 46;
  }

  lemma {:induction false} BranchLabelInjective(a: seq<nat>, b: seq<nat>)
    requires IndicesBelow(a, 552490) && IndicesBelow(b, 552490) && BranchLabel(a) == BranchLabel(b)
    ensures a == b
  {
    if a != [] && b != [] {
      var i, j := a[|a| - 1], b[|b| - 1];
      var p, q := a[..|a| - 1], b[..|b| - 1];
      LabelInjective(i, j);
      LabelInjective(j, i);
      if p != [] && q != [] {
        SplitLabel(BranchLabel(p), Label(i), BranchLabel(q), Label(j));
        BranchLabelInjective(p, q);
        assert a == p + [i] && b == q + [j];
      } else if p != [] {
        UndottedLabel(Label(j), BranchLabel(p), Label(i));
      } else if q != [] {
        UndottedLabel(Label(i), BranchLabel(q), Label(j));
      }
    }
  }

  lemma LabelsCollide()
    ensures BranchLabel([552480]) == BranchLabel([552490])
  {
  }

  /** Rendered branches tell positions apart, also for child indices of three and more digits, exactly up
      to the second index whose label starts with the replacement for a surrogate. */
  lemma BranchLabelsExact(n: nat)
    ensures (forall a, b | IndicesBelow(a, n) && IndicesBelow(b, n) && BranchLabel(a) == BranchLabel(b) :: a == b) <==> n <= 552490
  {
    if n <= 552490 {
      forall a, b | IndicesBelow(a, n) && IndicesBelow(b, n) && BranchLabel(a) == BranchLabel(b) ensures a == b {
        BranchLabelInjective(a, b);
      }
    } else {
      LabelsCollide();
      assert IndicesBelow([552480], n) && IndicesBelow([552490], n) && [552480][0] != [552490][0];
    }
  }
}
