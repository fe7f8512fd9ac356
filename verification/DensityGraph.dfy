/** The within-epsilon graph of a clustering run, and what a correct labelling of it is. */
module DensityGraph {
  const UNDEFINED := -2
  const NOISE := -1

  /** Points `0..n`; `near` relates points within epsilon of each other, and `core` holds the
      points with enough neighbours. */
  datatype Graph = Graph(n: nat, near: set<(nat, nat)>, core: set<nat>)

  ghost predicate Valid(g: Graph) {
    && (forall p | p in g.core :: p < g.n)
    && (forall p, q | (p, q) in g.near :: p < g.n && q < g.n && (q, p) in g.near)
  }

  // ---- Chains of core points ---------------------------------------------------------

  ghost predicate CorePath(g: Graph, path: seq<nat>) {
    && |path| > 0
    && (forall i | 0 <= i < |path| :: path[i] in g.core)
    && (forall i | 0 < i < |path| :: (path[i - 1], path[i]) in g.near)
  }

  /** Some chain of neighbouring core points joins `p` and `q`. */
  ghost predicate Linked(g: Graph, p: nat, q: nat) {
    exists path :: CorePath(g, path) && path[0] == p && path[|path| - 1] == q
  }

  lemma LinkedSelf(g: Graph, p: nat)
    requires p in g.core
    ensures Linked(g, p, p)
  {
    assert CorePath(g, [p]);
  }

  lemma LinkedExtend(g: Graph, p: nat, q: nat, r: nat)
    requires Linked(g, p, q) && (q, r) in g.near && r in g.core
    ensures Linked(g, p, r)
  {
    var path :| CorePath(g, path) && path[0] == p && path[|path| - 1] == q;
    assert CorePath(g, path + [r]) && (path + [r])[0] == p;
  }

  lemma LinkedReverse(g: Graph, p: nat, q: nat)
    requires Valid(g) && Linked(g, p, q)
    ensures Linked(g, q, p)
  {
    var path :| CorePath(g, path) && path[0] == p && path[|path| - 1] == q;
    var back := seq(|path|, i requires 0 <= i < |path| => path[|path| - 1 - i]);
    forall i | 0 < i < |back| ensures (back[i - 1], back[i]) in g.near {
      assert (path[|path| - i - 1], path[|path| - i]) in g.near;
    }
    assert CorePath(g, back);
  }

  lemma LinkedTrans(g: Graph, p: nat, q: nat, r: nat)
    requires Linked(g, p, q) && Linked(g, q, r)
    ensures Linked(g, p, r)
  {
    var a :| CorePath(g, a) && a[0] == p && a[|a| - 1] == q;
    var b :| CorePath(g, b) && b[0] == q && b[|b| - 1] == r;
    var ab := a + b[1..];
    forall i | 0 < i < |ab| ensures (ab[i - 1], ab[i]) in g.near {
      if i >= |a| {
        assert ab[i - 1] == b[i - |a|] && ab[i] == b[i - |a| + 1];
      }
    }
    assert CorePath(g, ab) && ab[|ab| - 1] == r;
  }

  // ---- What a correct labelling is -------------------------------------------------

  /** `c` is a core point labelled `l`. */
  ghost predicate CoreOf(g: Graph, labels: seq<int>, c: nat, l: int) {
    c < |labels| && c in g.core && labels[c] == l
  }

  ghost predicate HasCore(g: Graph, labels: seq<int>, l: int) {
    exists c: nat :: CoreOf(g, labels, c, l)
  }

  /** Cluster `l` has a core point before `p`. */
  ghost predicate HasCoreBefore(g: Graph, labels: seq<int>, l: int, p: nat) {
    exists c: nat :: c < p && CoreOf(g, labels, c, l)
  }

  /** Some core point of cluster `l` has `p` in its neighbourhood. */
  ghost predicate Reached(g: Graph, labels: seq<int>, p: nat, l: int) {
    exists c: nat :: CoreOf(g, labels, c, l) && (c, p) in g.near
  }

  ghost predicate Ranged(labels: seq<int>, low: int, k: int) {
    forall p | 0 <= p < |labels| :: low <= labels[p] < k
  }

  /** Noise is exactly what is not a core point and is in no core point's neighbourhood. */
  ghost predicate NoiseExact(g: Graph, labels: seq<int>) {
    forall p: nat | p < |labels| ::
      labels[p] == NOISE <==> p !in g.core && forall c | c in g.core :: (c, p) !in g.near
  }

  /** Restricted to core points, the clusters are the connected components. */
  ghost predicate CoresByComponent(g: Graph, labels: seq<int>) {
    forall p, q | p in g.core && q in g.core && p < |labels| && q < |labels| ::
      labels[p] == labels[q] <==> Linked(g, p, q)
  }

  /** A border point belongs to the lowest-numbered cluster with a core point near it. */
  ghost predicate BordersLowest(g: Graph, labels: seq<int>) {
    && (forall p: nat | p < |labels| && p !in g.core && labels[p] >= 0 :: Reached(g, labels, p, labels[p]))
    && (forall c, p | (c, p) in g.near && c in g.core && c < |labels| && p < |labels| ::
          0 <= labels[p] <= labels[c])
  }

  /** No cluster is empty, and clusters are numbered in the order of their first core points. */
  ghost predicate Numbered(g: Graph, labels: seq<int>, k: nat) {
    && (forall l | 0 <= l < k :: HasCore(g, labels, l))
    && (forall p, l | p in g.core && p < |labels| && 0 <= l < labels[p] :: HasCoreBefore(g, labels, l, p))
  }

  /** The meaning of a labelling into `k` clusters, without reference to how it is computed. */
  ghost predicate Correct(g: Graph, labels: seq<int>, k: nat) {
    && |labels| == g.n
    && Ranged(labels, NOISE, k)
    && NoiseExact(g, labels)
    && CoresByComponent(g, labels)
    && BordersLowest(g, labels)
    && Numbered(g, labels, k)
  }

  // ---- Invariants of the run -----------------------------------------------------------

  ghost predicate NoiseNotCore(g: Graph, labels: seq<int>) {
    forall p: nat | p < |labels| && labels[p] == NOISE :: p !in g.core
  }

  ghost predicate BordersReached(g: Graph, labels: seq<int>) {
    forall p: nat | p < |labels| && p !in g.core && labels[p] >= 0 :: Reached(g, labels, p, labels[p])
  }

  /** `c` has claimed its neighbour `q`, or is about to. */
  ghost predicate Absorbs(g: Graph, labels: seq<int>, k: int, pending: seq<nat>, c: nat, q: nat)
    requires c < |labels| && q < |labels|
  {
    || (0 <= labels[q] <= labels[c] && (q in g.core ==> labels[q] == labels[c]))
    || (labels[c] == k && labels[q] < 0 && q in pending)
  }

  /** Every labelled core point has claimed its neighbourhood, except that neighbours of the
      growing cluster `k` may still be `pending`. */
  ghost predicate Absorbed(g: Graph, labels: seq<int>, k: int, pending: seq<nat>)
    requires |labels| == g.n && Valid(g)
  {
    forall c, q | (c, q) in g.near && c in g.core && labels[c] >= 0 :: Absorbs(g, labels, k, pending, c, q)
  }

  ghost predicate PendingReached(g: Graph, labels: seq<int>, k: int, pending: seq<nat>) {
    forall q | q in pending :: q < |labels| && Reached(g, labels, q, k)
  }

  /** `reps[l]` is the point that opened cluster `l`: its first core point. */
  ghost predicate Opened(g: Graph, labels: seq<int>, i: nat, reps: seq<nat>) {
    && (forall p | 0 <= p < i && p < |labels| :: labels[p] != UNDEFINED)
    && (forall l | 0 <= l < |reps| :: reps[l] < i && CoreOf(g, labels, reps[l], l))
    && (forall l, m | 0 <= l < m < |reps| :: reps[l] < reps[m])
    && (forall c | c in g.core && c < |labels| && 0 <= labels[c] < |reps| ::
          reps[labels[c]] <= c && Linked(g, reps[labels[c]], c))
  }

  /** State of a run that has opened the clusters `reps`, passed the points below `i`, and still
      has to visit `pending` for the last of these clusters. */
  ghost predicate Running(g: Graph, labels: seq<int>, i: nat, reps: seq<nat>, pending: seq<nat>) {
    && Valid(g) && |labels| == g.n
    && Ranged(labels, UNDEFINED, |reps|)
    && NoiseNotCore(g, labels)
    && BordersReached(g, labels)
    && Absorbed(g, labels, |reps| - 1, pending)
    && PendingReached(g, labels, |reps| - 1, pending)
    && Opened(g, labels, i, reps)
  }

  lemma StartRun(g: Graph, labels: seq<int>)
    requires Valid(g) && |labels| == g.n && forall p | 0 <= p < g.n :: labels[p] == UNDEFINED
    ensures Running(g, labels, 0, [], [])
  {
  }

  lemma PassPoint(g: Graph, labels: seq<int>, i: nat, reps: seq<nat>)
    requires Running(g, labels, i, reps, []) && i < g.n && labels[i] != UNDEFINED
    ensures Running(g, labels, i + 1, reps, [])
  {
  }

  // ---- Steps of the run ------------------------------------------------------------------

  /** Labelling an unlabelled point disturbs no core point that already reached something. */
  lemma ReachedKept(g: Graph, labels: seq<int>, q: nat, v: int, p: nat, l: int)
    requires q < |labels| && labels[q] < 0 && l >= 0
    requires Reached(g, labels, p, l)
    ensures Reached(g, labels[q := v], p, l)
  {
    var c: nat :| CoreOf(g, labels, c, l) && (c, p) in g.near;
    assert CoreOf(g, labels[q := v], c, l);
  }

  lemma BordersReachedKept(g: Graph, labels: seq<int>, q: nat, v: int)
    requires BordersReached(g, labels) && q < |labels| && labels[q] < 0
    requires q in g.core || v < 0 || Reached(g, labels, q, v)
    ensures BordersReached(g, labels[q := v])
  {
    var after := labels[q := v];
    forall p: nat | p < |after| && p !in g.core && after[p] >= 0 ensures Reached(g, after, p, after[p]) {
      ReachedKept(g, labels, q, v, p, after[p]);
    }
  }

  /** Visiting an unlabelled point reached by the growing cluster; `next` is what is pending then. */
  lemma ClaimPoint(g: Graph, labels: seq<int>, i: nat, reps: seq<nat>, q: nat, rest: seq<nat>, next: seq<nat>)
    requires Running(g, labels, i, reps, [q] + rest) && |reps| > 0 && q < g.n
    requires labels[q] == UNDEFINED || labels[q] == NOISE
    requires forall r :: r in next <==> r in rest || (q in g.core && (q, r) in g.near)
    requires i <= g.n
    ensures Running(g, labels[q := |reps| - 1], i, reps, next)
  {
    var k := |reps| - 1;
    var after := labels[q := k];
    assert q in [q] + rest;
    BordersReachedKept(g, labels, q, k);
    forall c, r | (c, r) in g.near && c in g.core && after[c] >= 0
      ensures Absorbs(g, after, k, next, c, r)
    {
      if c == q {
        assert (r, q) in g.near;
      } else {
        assert Absorbs(g, labels, k, [q] + rest, c, r);
      }
    }
    forall r | r in next ensures r < |after| && Reached(g, after, r, k) {
      if r in rest {
        assert r in [q] + rest;
        ReachedKept(g, labels, q, k, r, k);
      } else {
        assert CoreOf(g, after, q, k);
      }
    }
    OpenedKept(g, labels, i, reps, q);
  }

  lemma OpenedKept(g: Graph, labels: seq<int>, i: nat, reps: seq<nat>, q: nat)
    requires Opened(g, labels, i, reps) && |reps| > 0 && q < |labels| && i <= |labels| == g.n
    requires NoiseNotCore(g, labels) && Ranged(labels, UNDEFINED, |reps|)
    requires labels[q] < 0 && Reached(g, labels, q, |reps| - 1)
    ensures Opened(g, labels[q := |reps| - 1], i, reps)
  {
    var k := |reps| - 1;
    var after := labels[q := k];
    forall l | 0 <= l < |reps| ensures reps[l] < i && CoreOf(g, after, reps[l], l) {
      assert CoreOf(g, labels, reps[l], l);
    }
    if q in g.core {
      var c: nat :| CoreOf(g, labels, c, k) && (c, q) in g.near;
      LinkedExtend(g, reps[k], c, q);
    }
  }

  lemma SkipPoint(g: Graph, labels: seq<int>, i: nat, reps: seq<nat>, q: nat, rest: seq<nat>)
    requires Running(g, labels, i, reps, [q] + rest) && q < g.n && labels[q] >= 0
    ensures Running(g, labels, i, reps, rest)
  {
    forall r | r in rest ensures r < |labels| && Reached(g, labels, r, |reps| - 1) {
      assert r in [q] + rest;
    }
    forall c, r | (c, r) in g.near && c in g.core && labels[c] >= 0
      ensures Absorbs(g, labels, |reps| - 1, rest, c, r)
    {
      assert Absorbs(g, labels, |reps| - 1, [q] + rest, c, r);
    }
  }

  /** Opening a cluster at an unlabelled core point. */
  lemma OpenCluster(g: Graph, labels: seq<int>, i: nat, reps: seq<nat>, seed: seq<nat>)
    requires Running(g, labels, i, reps, []) && i < g.n
    requires labels[i] == UNDEFINED && i in g.core
    requires forall q :: q in seed <==> (i, q) in g.near && q != i
    ensures Running(g, labels[i := |reps|], i + 1, reps + [i], seed)
  {
    var k := |reps|;
    var after := labels[i := k];
    BordersReachedKept(g, labels, i, k);
    forall c, r | (c, r) in g.near && c in g.core && after[c] >= 0
      ensures Absorbs(g, after, k, seed, c, r)
    {
      if c == i {
        assert (r, i) in g.near;
      } else {
        assert Absorbs(g, labels, k - 1, [], c, r);
      }
    }
    assert CoreOf(g, after, i, k);
    LinkedSelf(g, i);
    forall l | 0 <= l < k ensures CoreOf(g, after, reps[l], l) {
      assert CoreOf(g, labels, reps[l], l);
    }
  }

  lemma MarkNoise(g: Graph, labels: seq<int>, i: nat, reps: seq<nat>)
    requires Running(g, labels, i, reps, []) && i < g.n
    requires labels[i] == UNDEFINED && i !in g.core
    ensures Running(g, labels[i := NOISE], i + 1, reps, [])
  {
    var after := labels[i := NOISE];
    BordersReachedKept(g, labels, i, NOISE);
    forall c, r | (c, r) in g.near && c in g.core && after[c] >= 0
      ensures Absorbs(g, after, |reps| - 1, [], c, r)
    {
      assert Absorbs(g, labels, |reps| - 1, [], c, r);
    }
    forall l | 0 <= l < |reps| ensures reps[l] < i + 1 && CoreOf(g, after, reps[l], l) {
      assert CoreOf(g, labels, reps[l], l);
    }
  }

  // ---- The end of the run ------------------------------------------------------------------

  lemma {:induction false} SameAlongPath(g: Graph, labels: seq<int>, i: nat, reps: seq<nat>, path: seq<nat>)
    requires Running(g, labels, i, reps, []) && CorePath(g, path) && labels[path[0]] >= 0
    ensures path[|path| - 1] < g.n && labels[path[|path| - 1]] == labels[path[0]]
  {
    if |path| > 1 {
      assert (path[0], path[1]) in g.near by {
        assert (path[1 - 1], path[1]) in g.near;
      }
      assert Absorbs(g, labels, |reps| - 1, [], path[0], path[1]);
      forall j | 0 < j < |path[1..]| ensures (path[1..][j - 1], path[1..][j]) in g.near {
        assert (path[j + 1 - 1], path[j + 1]) in g.near;
      }
      SameAlongPath(g, labels, i, reps, path[1..]);
    }
  }

  /** A run that has passed every point and has nothing pending is correct. */
  lemma FinishedRun(g: Graph, labels: seq<int>, reps: seq<nat>)
    requires Running(g, labels, g.n, reps, [])
    ensures Correct(g, labels, |reps|)
  {
    assert forall c, q | (c, q) in g.near && c in g.core :: Absorbs(g, labels, |reps| - 1, [], c, q);
    forall p: nat | p < g.n && p !in g.core && forall c | c in g.core :: (c, p) !in g.near
      ensures labels[p] == NOISE
    {
    }
    forall p, q | p in g.core && q in g.core && p < |labels| && q < |labels|
      ensures labels[p] == labels[q] <==> Linked(g, p, q)
    {
      if labels[p] == labels[q] {
        LinkedReverse(g, reps[labels[p]], p);
        LinkedTrans(g, p, reps[labels[p]], q);
      }
      if Linked(g, p, q) {
        var path :| CorePath(g, path) && path[0] == p && path[|path| - 1] == q;
        SameAlongPath(g, labels, g.n, reps, path);
      }
    }
    FinishedNumbering(g, labels, reps);
  }

  lemma FinishedNumbering(g: Graph, labels: seq<int>, reps: seq<nat>)
    requires Opened(g, labels, g.n, reps) && Ranged(labels, UNDEFINED, |reps|)
    ensures Numbered(g, labels, |reps|)
  {
    forall l | 0 <= l < |reps| ensures HasCore(g, labels, l) {
      assert CoreOf(g, labels, reps[l], l);
    }
    forall p, l | p in g.core && p < |labels| && 0 <= l < labels[p] ensures HasCoreBefore(g, labels, l, p) {
      assert reps[l] < reps[labels[p]] <= p && CoreOf(g, labels, reps[l], l);
    }
  }

  // ---- A correct labelling is unique ----------------------------------------------------------

  lemma {:induction false} UniqueOnCores(g: Graph, a: seq<int>, j: nat, b: seq<int>, k: nat, p: nat)
    requires Valid(g) && Correct(g, a, j) && Correct(g, b, k) && p in g.core
    ensures a[p] == b[p]
    decreases p
  {
    if a[p] < b[p] {
      CoreLabelNotBelow(g, a, j, b, k, p);
    } else if b[p] < a[p] {
      CoreLabelNotBelow(g, b, k, a, j, p);
    }
  }

  /** Were `p` numbered lower by `a`, that cluster of `b` would already have an earlier core point,
      on which both agree, and it would be linked to `p`. */
  lemma {:induction false} CoreLabelNotBelow(g: Graph, a: seq<int>, j: nat, b: seq<int>, k: nat, p: nat)
    requires Valid(g) && Correct(g, a, j) && Correct(g, b, k) && p in g.core
    ensures a[p] >= b[p]
    decreases p, 0
  {
    if a[p] < b[p] {
      assert a[p] != NOISE;
      assert HasCoreBefore(g, b, a[p], p);
      var c: nat :| c < p && CoreOf(g, b, c, a[p]);
      UniqueOnCores(g, a, j, b, k, c);
    }
  }

  lemma LabelNotBelow(g: Graph, a: seq<int>, j: nat, b: seq<int>, k: nat, p: nat)
    requires Valid(g) && Correct(g, a, j) && Correct(g, b, k) && p < g.n
    ensures a[p] >= b[p]
  {
    if p in g.core {
      UniqueOnCores(g, a, j, b, k, p);
    } else if a[p] == NOISE {
      assert b[p] == NOISE;
    } else {
      assert Reached(g, a, p, a[p]);
      var c: nat :| CoreOf(g, a, c, a[p]) && (c, p) in g.near;
      UniqueOnCores(g, a, j, b, k, c);
    }
  }

  lemma ClustersNotFewer(g: Graph, a: seq<int>, j: nat, k: nat)
    requires Correct(g, a, j) && Correct(g, a, k)
    ensures j >= k
  {
    assert j < k ==> HasCore(g, a, j);
  }

  /** `Correct` leaves no freedom: the graph determines the labels and their number. */
  lemma UniqueLabelling(g: Graph, a: seq<int>, j: nat, b: seq<int>, k: nat)
    requires Valid(g) && Correct(g, a, j) && Correct(g, b, k)
    ensures a == b && j == k
  {
    forall p: nat | p < g.n ensures a[p] == b[p] {
      LabelNotBelow(g, a, j, b, k, p);
      LabelNotBelow(g, b, k, a, j, p);
    }
    assert a == b;
    ClustersNotFewer(g, a, j, k);
    ClustersNotFewer(g, a, k, j);
  }

  // ---- The order of the points does not matter ---------------------------------------------------

  /** `to` and `from` are inverse renamings of the points of `g` and `h` that keep neighbours and
      core points. */
  ghost predicate Renames(g: Graph, h: Graph, to: seq<nat>, from: seq<nat>) {
    && g.n == h.n == |to| == |from|
    && (forall p | 0 <= p < g.n :: to[p] < g.n && from[p] < g.n && from[to[p]] == p && to[from[p]] == p)
    && (forall p | 0 <= p < g.n :: p in g.core <==> to[p] in h.core)
    && (forall p, q | 0 <= p < g.n && 0 <= q < g.n :: (p, q) in g.near <==> (to[p], to[q]) in h.near)
  }

  lemma {:induction false} LinkedRenamed(g: Graph, h: Graph, to: seq<nat>, from: seq<nat>, path: seq<nat>)
    requires Valid(g) && Valid(h) && Renames(g, h, to, from) && CorePath(g, path)
    ensures path[0] < g.n && path[|path| - 1] < g.n && Linked(h, to[path[0]], to[path[|path| - 1]])
  {
    var last := path[|path| - 1];
    if |path| == 1 {
      LinkedSelf(h, to[last]);
    } else {
      var front := path[..|path| - 1];
      LinkedRenamed(g, h, to, from, front);
      assert (path[|path| - 1 - 1], path[|path| - 1]) in g.near;
      LinkedExtend(h, to[path[0]], to[front[|front| - 1]], to[last]);
    }
  }

  lemma RenamesBack(g: Graph, h: Graph, to: seq<nat>, from: seq<nat>)
    requires Renames(g, h, to, from)
    ensures Renames(h, g, from, to)
  {
    forall p | 0 <= p < g.n ensures p in h.core <==> from[p] in g.core {
      assert to[from[p]] == p;
    }
    forall p, q | 0 <= p < g.n && 0 <= q < g.n
      ensures (p, q) in h.near <==> (from[p], from[q]) in g.near
    {
      assert to[from[p]] == p && to[from[q]] == q;
    }
  }

  /** Clustering the points in another order groups the core points and picks the noise alike. */
  lemma OrderIndependent(g: Graph, h: Graph, to: seq<nat>, from: seq<nat>,
                         a: seq<int>, j: nat, b: seq<int>, k: nat)
    requires Valid(g) && Valid(h) && Renames(g, h, to, from) && Correct(g, a, j) && Correct(h, b, k)
    ensures forall p, q | p in g.core && q in g.core :: a[p] == a[q] <==> b[to[p]] == b[to[q]]
    ensures forall p | 0 <= p < g.n :: a[p] == NOISE <==> b[to[p]] == NOISE
  {
    RenamesBack(g, h, to, from);
    forall p, q | p in g.core && q in g.core ensures a[p] == a[q] <==> b[to[p]] == b[to[q]] {
      if Linked(g, p, q) {
        var path :| CorePath(g, path) && path[0] == p && path[|path| - 1] == q;
        LinkedRenamed(g, h, to, from, path);
      }
      if Linked(h, to[p], to[q]) {
        var path :| CorePath(h, path) && path[0] == to[p] && path[|path| - 1] == to[q];
        LinkedRenamed(h, g, from, to, path);
      }
    }
    forall p | 0 <= p < g.n ensures a[p] == NOISE <==> b[to[p]] == NOISE {
      NoiseRenamed(g, h, to, from, a, j, b, k, p);
      NoiseRenamed(h, g, from, to, b, k, a, j, to[p]);
    }
  }

  lemma NoiseRenamed(g: Graph, h: Graph, to: seq<nat>, from: seq<nat>,
                     a: seq<int>, j: nat, b: seq<int>, k: nat, p: nat)
    requires Valid(g) && Valid(h) && Renames(g, h, to, from) && Correct(g, a, j) && Correct(h, b, k) && p < g.n
    ensures a[p] == NOISE ==> b[to[p]] == NOISE
  {
    if a[p] == NOISE {
      forall c | c in h.core ensures (c, to[p]) !in h.near {
        assert to[from[c]] == c;
        assert from[c] in g.core;
        assert (from[c], p) !in g.near;
      }
    }
  }
}
