/** Density clustering of embeddings (internal/knowledge/dbscan.go).

    The test `CosineDistance(a, b) <= Epsilon` is an abstract relation `within`.  It has to be
    symmetric, as the distance is; it need not be reflexive, because a zero vector is at distance 2
    from itself. */
module Dbscan {
  import opened DensityGraph

  type Vector = seq<real>

  /** The vectors of one run, with the two configuration parameters. */
  datatype Input = Input(embeddings: seq<Vector>, within: (Vector, Vector) -> bool, minPoints: int)

  ghost predicate Symmetric(d: Input) {
    forall p, q | 0 <= p < |d.embeddings| && 0 <= q < |d.embeddings| :: Near(d, p, q) == Near(d, q, p)
  }

  predicate Near(d: Input, p: nat, q: nat)
    requires p < |d.embeddings| && q < |d.embeddings|
  {
    d.within(d.embeddings[p], d.embeddings[q])
  }

  /** Indices below `n` within epsilon of `p`, in increasing order. */
  function NeighborsBelow(d: Input, p: nat, n: nat): (r: seq<nat>)
    requires p < |d.embeddings| && n <= |d.embeddings|
    ensures forall q: nat :: q in r <==> q < n && Near(d, p, q)
  {
    if n == 0 then []
    else NeighborsBelow(d, p, n - 1) + if Near(d, p, n - 1) then [n - 1] else []
  }

  function Neighbors(d: Input, p: nat): seq<nat>
    requires p < |d.embeddings|
  {
    NeighborsBelow(d, p, |d.embeddings|)
  }

  /** The graph a run explores: a point is a core point if enough points, counting itself when it is
      within epsilon of itself, are near it. */
  ghost function GraphOf(d: Input): Graph {
    var n := |d.embeddings|;
    Graph(n,
          set p: nat, q: nat | p < n && q < n && Near(d, p, q) :: (p, q),
          set p: nat | p < n && |Neighbors(d, p)| >= d.minPoints)
  }

  lemma GraphIsValid(d: Input)
    requires Symmetric(d)
    ensures Valid(GraphOf(d))
  {
  }

  lemma {:induction false} NeighborsCounted(d: Input, p: nat, n: nat)
    requires p < |d.embeddings| && n <= |d.embeddings|
    ensures |NeighborsBelow(d, p, n)| == |set q: nat | q < n && d.within(d.embeddings[p], d.embeddings[q])|
  {
    var below := set q: nat | q < n && d.within(d.embeddings[p], d.embeddings[q]);
    if n > 0 {
      NeighborsCounted(d, p, n - 1);
      var front := set q: nat | q < n - 1 && d.within(d.embeddings[p], d.embeddings[q]);
      assert below == if Near(d, p, n - 1) then front + {n - 1} else front;
    } else {
      assert below == {};
    }
  }

  /** The graph in terms of the relation: points within epsilon of each other are near; a point is a core point if at
      least `minPoints` points are within epsilon of it. */
  lemma GraphMeaning(d: Input, p: nat, q: nat)
    ensures var g, n := GraphOf(d), |d.embeddings|;
            && g.n == n
            && ((p, q) in g.near <==> p < n && q < n && d.within(d.embeddings[p], d.embeddings[q]))
            && (p in g.core <==> p < n && |set r: nat | r < n && d.within(d.embeddings[p], d.embeddings[r])| >= d.minPoints)
  {
    if p < |d.embeddings| {
      NeighborsCounted(d, p, |d.embeddings|);
    }
  }

  datatype ClusterResult = ClusterResult(clusters: map<int, seq<nat>>, noise: seq<nat>)

  ghost predicate Ascending(s: seq<nat>) {
    forall i, j | 0 <= i < j < |s| :: s[i] < s[j]
  }

  /** `s` lists in increasing order the indices labelled `l`. */
  ghost predicate Members(labels: seq<int>, l: int, s: seq<nat>) {
    Ascending(s) && forall p: nat :: p in s <==> p < |labels| && labels[p] == l
  }

  /** `result` groups the indices by label: `labels` into `k` clusters and noise. */
  ghost predicate Groups(labels: seq<int>, k: nat, result: ClusterResult) {
    && (forall l :: l in result.clusters <==> 0 <= l < k)
    && (forall l | l in result.clusters :: Members(labels, l, result.clusters[l]))
    && Members(labels, NOISE, result.noise)
  }

  /** `result` is a correct clustering of the vectors of `d`. */
  ghost predicate IsClustering(d: Input, result: ClusterResult) {
    exists labels, k :: Correct(GraphOf(d), labels, k) && Groups(labels, k, result)
  }

  // ---- The algorithm --------------------------------------------------------------------

  method RangeQuery(d: Input, p: nat) returns (neighbors: seq<nat>)
    requires p < |d.embeddings|
    ensures neighbors == Neighbors(d, p)
  {
    neighbors := [];
    for i := 0 to |d.embeddings|
      invariant neighbors == NeighborsBelow(d, p, i)
    {
      if d.within(d.embeddings[p], d.embeddings[i]) {
        neighbors := neighbors + [i];
      }
    }
  }

  ghost function Undefined(labels: seq<int>): set<nat> {
    set p: nat | p < |labels| && labels[p] == UNDEFINED
  }

  /** Visits one pending point `q` of the growing cluster and returns what it adds to the seed. */
  method VisitSeed(d: Input, labels: array<int>, q: nat, clusterID: nat,
                   ghost i: nat, ghost reps: seq<nat>, ghost rest: seq<nat>)
    returns (more: seq<nat>)
    requires |reps| == clusterID + 1 && i <= labels.Length && q < labels.Length
    requires Running(GraphOf(d), labels[..], i, reps, [q] + rest)
    modifies labels
    ensures Running(GraphOf(d), labels[..], i, reps, rest + more)
    ensures forall r | r in more :: r < labels.Length
    ensures Undefined(labels[..]) <= old(Undefined(labels[..]))
    ensures more != [] ==> q in old(Undefined(labels[..])) && q !in Undefined(labels[..])
  {
    ghost var g, before := GraphOf(d), labels[..];
    more := [];
    if labels[q] == NOISE {
      labels[q] := clusterID;
    }
    if labels[q] != UNDEFINED {
      if before[q] == NOISE {
        assert labels[..] == before[q := clusterID];
        ClaimPoint(g, before, i, reps, q, rest, rest);
      } else {
        assert labels[..] == before;
        SkipPoint(g, before, i, reps, q, rest);
      }
      assert rest + more == rest;
      return;
    }
    labels[q] := clusterID;
    assert labels[..] == before[q := clusterID];
    var qNeighbors := RangeQuery(d, q);
    if |qNeighbors| >= d.minPoints {
      more := qNeighbors;
    }
    ClaimPoint(g, before, i, reps, q, rest, rest + more);
  }

  /** The inner loop: `seed` grows while it is iterated. */
  method GrowCluster(d: Input, labels: array<int>, seeds: seq<nat>, clusterID: nat, ghost i: nat, ghost reps: seq<nat>)
    requires |reps| == clusterID + 1 && i <= labels.Length && forall q | q in seeds :: q < labels.Length
    requires Running(GraphOf(d), labels[..], i, reps, seeds)
    modifies labels
    ensures Running(GraphOf(d), labels[..], i, reps, [])
  {
    var seed: seq<nat> := seeds;
    var j := 0;
    hide Running;
    assert seed[0..] == seed;
    while j < |seed|
      invariant j <= |seed|
      invariant Running(GraphOf(d), labels[..], i, reps, seed[j..])
      invariant forall q | q in seed :: q < labels.Length
      decreases Undefined(labels[..]), |seed| - j
    {
      ghost var rest := seed[j + 1..];
      assert seed[j..] == [seed[j]] + rest;
      assert seed[j] in seed;
      var more := VisitSeed(d, labels, seed[j], clusterID, i, reps, rest);
      seed := seed + more;
      j := j + 1;
      assert seed[j..] == rest + more;
    }
    assert seed[j..] == [];
  }

  method LabelPoints(d: Input) returns (labels: array<int>, clusterID: nat)
    requires Symmetric(d)
    ensures fresh(labels) && Correct(GraphOf(d), labels[..], clusterID)
  {
    ghost var g := GraphOf(d);
    GraphIsValid(d);
    hide Running;
    labels := new int[|d.embeddings|](_ => UNDEFINED);
    clusterID := 0;
    ghost var reps: seq<nat> := [];
    StartRun(g, labels[..]);
    for i := 0 to labels.Length
      invariant |reps| == clusterID && Running(g, labels[..], i, reps, [])
    {
      ghost var before := labels[..];
      if labels[i] != UNDEFINED {
        PassPoint(g, before, i, reps);
        continue;
      }
      var neighbors := RangeQuery(d, i);
      if |neighbors| < d.minPoints {
        labels[i] := NOISE;
        MarkNoise(g, before, i, reps);
        assert labels[..] == before[i := NOISE];
        continue;
      }
      labels[i] := clusterID;
      assert labels[..] == before[i := clusterID];
      var seed := Without(neighbors, i);
      OpenCluster(g, before, i, reps, seed);
      reps := reps + [i];
      GrowCluster(d, labels, seed, clusterID, i + 1, reps);
      clusterID := clusterID + 1;
    }
    FinishedRun(g, labels[..], reps);
  }

  method Without(neighbors: seq<nat>, i: nat) returns (seed: seq<nat>)
    ensures forall q :: q in seed <==> q in neighbors && q != i
  {
    seed := [];
    for m := 0 to |neighbors|
      invariant forall q :: q in seed <==> q in neighbors[..m] && q != i
    {
      if neighbors[m] != i {
        seed := seed + [neighbors[m]];
      }
    }
    assert neighbors[..|neighbors|] == neighbors;
  }

  lemma MembersNext(labels: seq<int>, l: int, s: seq<nat>, next: int)
    requires Members(labels, l, s)
    ensures Members(labels + [next], l, if next == l then s + [|labels|] else s)
  {
    var t := if next == l then s + [|labels|] else s;
    forall i, j | 0 <= i < j < |t| ensures t[i] < t[j] {
      assert t[i] == s[i] && s[i] in s;
    }
    forall p: nat ensures p in t <==> p < |labels| + 1 && (labels + [next])[p] == l {
      if p == |labels| && next == l {
        assert t[|s|] == p;
      } else if p in s {
        assert p in t;
      }
    }
  }

  lemma MembersNone(l: int)
    ensures Members([], l, [])
  {
  }

  /** The last loop of the run: collects the indices of each label. */
  method GroupByLabel(points: array<int>, ghost k: nat) returns (result: ClusterResult)
    requires forall p | 0 <= p < points.Length :: NOISE <= points[p] < k
    requires forall l | 0 <= l < k :: l in points[..]
    ensures Groups(points[..], k, result)
  {
    var clusters: map<int, seq<nat>> := map[];
    var noise: seq<nat> := [];
    hide Members;
    MembersNone(NOISE);
    for i := 0 to points.Length
      invariant Members(points[..i], NOISE, noise)
      invariant forall l :: l in clusters <==> l >= 0 && l in points[..i]
      invariant forall l | l in clusters :: Members(points[..i], l, clusters[l])
    {
      var l := points[i];
      ghost var seen, before := points[..i], clusters;
      assert points[..i + 1] == seen + [l];
      MembersNext(seen, NOISE, noise, l);
      if l == NOISE {
        noise := noise + [i];
      } else {
        var indices := if l in clusters then clusters[l] else [];
        clusters := clusters[l := indices + [i]];
      }
      forall m | m in clusters ensures Members(points[..i + 1], m, clusters[m]) {
        MembersNext(seen, m, if m in before then before[m] else [], l);
      }
    }
    assert points[..points.Length] == points[..];
    result := ClusterResult(clusters, noise);
  }

  method RunDBSCAN(d: Input) returns (result: ClusterResult)
    requires Symmetric(d)
    ensures IsClustering(d, result)
  {
    if |d.embeddings| == 0 {
      assert Correct(GraphOf(d), [], 0) && Groups([], 0, ClusterResult(map[], []));
      return ClusterResult(map[], []);
    }
    var labels, clusterID := LabelPoints(d);
    forall l | 0 <= l < clusterID ensures l in labels[..] {
      assert HasCore(GraphOf(d), labels[..], l);
    }
    result := GroupByLabel(labels, clusterID);
  }

  // ---- What a result means ----------------------------------------------------------------

  /** Every index is in exactly one cluster or in the noise, no cluster is empty, noise is what is
      neither a core point nor near one, core points share a cluster exactly if they are linked, and any
      other member is near a core point of its cluster. */
  lemma ResultMeaning(d: Input, result: ClusterResult)
    requires IsClustering(d, result)
    ensures forall p: nat :: p < |d.embeddings| <==> p in result.noise || exists l | l in result.clusters :: p in result.clusters[l]
    ensures forall l, m, p | l in result.clusters && m in result.clusters && p in result.clusters[l] && p in result.clusters[m] :: l == m
    ensures forall l | l in result.clusters :: result.clusters[l] != [] && forall p | p in result.clusters[l] :: p !in result.noise
    ensures var g := GraphOf(d);
            && (forall p: nat | p < g.n :: p in result.noise <==> p !in g.core && forall c | c in g.core :: (c, p) !in g.near)
            && (forall l, p, q | l in result.clusters && p in result.clusters[l] && p in g.core && q in g.core ::
                  q in result.clusters[l] <==> Linked(g, p, q))
            && (forall l, p | l in result.clusters && p in result.clusters[l] && p !in g.core :: BorderOf(g, result, l, p))
  {
    var labels, k :| Correct(GraphOf(d), labels, k) && Groups(labels, k, result);
    forall p: nat ensures p < |d.embeddings| <==> p in result.noise || exists l | l in result.clusters :: p in result.clusters[l] {
      if p < |d.embeddings| && labels[p] >= 0 {
        assert labels[p] in result.clusters;
      }
    }
    forall l | l in result.clusters ensures result.clusters[l] != [] {
      assert HasCore(GraphOf(d), labels, l);
      var c: nat :| CoreOf(GraphOf(d), labels, c, l);
      assert c in result.clusters[l];
    }
    forall l, p | l in result.clusters && p in result.clusters[l] && p !in GraphOf(d).core ensures BorderOf(GraphOf(d), result, l, p) {
      assert Reached(GraphOf(d), labels, p, l);
      var c: nat :| CoreOf(GraphOf(d), labels, c, l) && (c, p) in GraphOf(d).near;
      assert c in result.clusters[l];
    }
  }

  /** A core point of the cluster is a neighbour of `p`. */
  ghost predicate BorderOf(g: Graph, result: ClusterResult, l: int, p: nat)
    requires l in result.clusters
  {
    exists c :: c in result.clusters[l] && c in g.core && (c, p) in g.near
  }

  lemma {:induction false} AscendingSame(a: seq<nat>, b: seq<nat>)
    requires Ascending(a) && Ascending(b) && forall p :: p in a <==> p in b
    ensures a == b
  {
    assert |b| > 0 ==> b[0] in a;
    if a != [] {
      assert a[0] in b;
      assert a == [a[0]] + a[1..] && b == [b[0]] + b[1..];
      assert a[0] == b[0];
      forall p ensures p in a[1..] <==> p in b[1..] {
        assert p in a[1..] <==> p in a && p != a[0];
        assert p in b[1..] <==> p in b && p != b[0];
      }
      AscendingSame(a[1..], b[1..]);
    }
  }

  lemma GroupsUnique(labels: seq<int>, k: nat, r: ClusterResult, s: ClusterResult)
    requires Groups(labels, k, r) && Groups(labels, k, s)
    ensures r == s
  {
    AscendingSame(r.noise, s.noise);
    forall l | l in r.clusters ensures r.clusters[l] == s.clusters[l] {
      AscendingSame(r.clusters[l], s.clusters[l]);
    }
    assert forall l :: l in r.clusters <==> l in s.clusters;
    assert r.clusters.Keys == s.clusters.Keys;
  }

  /** Two runs over the same vectors return the same result. */
  lemma ResultUnique(d: Input, r: ClusterResult, s: ClusterResult)
    requires Symmetric(d) && IsClustering(d, r) && IsClustering(d, s)
    ensures r == s
  {
    hide Correct, Groups;
    GraphIsValid(d);
    var a, j :| Correct(GraphOf(d), a, j) && Groups(a, j, r);
    var b, k :| Correct(GraphOf(d), b, k) && Groups(b, k, s);
    UniqueLabelling(GraphOf(d), a, j, b, k);
    GroupsUnique(a, j, r, s);
  }

  // ---- Vectors in another order -------------------------------------------------------------

  /** `e` holds the vectors of `d` in another order: vector `p` of `d` is vector `to[p]` of `e`. */
  ghost predicate Reorders(d: Input, e: Input, to: seq<nat>, from: seq<nat>) {
    && e.within == d.within && e.minPoints == d.minPoints
    && |d.embeddings| == |e.embeddings| == |to| == |from|
    && (forall p | 0 <= p < |to| :: to[p] < |to| && from[p] < |to| && from[to[p]] == p && to[from[p]] == p)
    && (forall p | 0 <= p < |to| :: d.embeddings[p] == e.embeddings[to[p]])
  }

  ghost function NeighborSet(d: Input, p: nat, n: nat): set<nat>
    requires p < |d.embeddings| && n <= |d.embeddings|
  {
    set q: nat | q < n && Near(d, p, q)
  }

  lemma {:induction false} CountNeighbors(d: Input, p: nat, n: nat)
    requires p < |d.embeddings| && n <= |d.embeddings|
    ensures |NeighborsBelow(d, p, n)| == |NeighborSet(d, p, n)|
  {
    if n == 0 {
      assert NeighborSet(d, p, 0) == {};
    } else {
      CountNeighbors(d, p, n - 1);
      assert NeighborSet(d, p, n) == NeighborSet(d, p, n - 1) + if Near(d, p, n - 1) then {n - 1} else {};
    }
  }

  lemma {:induction false} ImageSize(s: set<nat>, to: seq<nat>, from: seq<nat>)
    requires forall p | p in s :: p < |to| && to[p] < |from| && from[to[p]] == p
    ensures |set p | p in s :: to[p]| == |s|
  {
    var image := set p | p in s :: to[p];
    if s == {} {
      assert image == {};
    } else {
      var p :| p in s;
      ImageSize(s - {p}, to, from);
      assert image == (set q | q in s - {p} :: to[q]) + {to[p]};
      assert to[p] !in (set q | q in s - {p} :: to[q]);
    }
  }

  lemma ReorderedDegree(d: Input, e: Input, to: seq<nat>, from: seq<nat>, p: nat)
    requires Reorders(d, e, to, from) && p < |to|
    ensures |Neighbors(d, p)| == |Neighbors(e, to[p])|
  {
    var n := |to|;
    CountNeighbors(d, p, n);
    CountNeighbors(e, to[p], n);
    ImageSize(NeighborSet(d, p, n), to, from);
    var image := set q | q in NeighborSet(d, p, n) :: to[q];
    forall r ensures r in image <==> r in NeighborSet(e, to[p], n) {
      if r in NeighborSet(e, to[p], n) {
        assert from[r] in NeighborSet(d, p, n) && to[from[r]] == r;
      }
    }
    assert image == NeighborSet(e, to[p], n);
  }

  lemma LabelsOrderIndependent(d: Input, e: Input, to: seq<nat>, from: seq<nat>,
                            a: seq<int>, j: nat, b: seq<int>, k: nat)
    requires Symmetric(d) && Symmetric(e) && Reorders(d, e, to, from)
    requires Correct(GraphOf(d), a, j) && Correct(GraphOf(e), b, k)
    ensures forall p, q | p in GraphOf(d).core && q in GraphOf(d).core :: a[p] == a[q] <==> b[to[p]] == b[to[q]]
    ensures forall p | 0 <= p < |to| :: a[p] == NOISE <==> b[to[p]] == NOISE
  {
    var g, h := GraphOf(d), GraphOf(e);
    forall p | 0 <= p < g.n ensures p in g.core <==> to[p] in h.core {
      ReorderedDegree(d, e, to, from, p);
    }
    OrderIndependent(g, h, to, from, a, j, b, k);
  }

  ghost predicate SameCluster(r: ClusterResult, p: nat, q: nat) {
    exists l | l in r.clusters :: p in r.clusters[l] && q in r.clusters[l]
  }

  lemma SameClusterLabels(labels: seq<int>, k: nat, r: ClusterResult, p: nat, q: nat)
    requires Groups(labels, k, r) && p < |labels| && q < |labels| && 0 <= labels[p] < k
    ensures SameCluster(r, p, q) <==> labels[p] == labels[q]
  {
    if labels[p] == labels[q] {
      assert p in r.clusters[labels[p]] && q in r.clusters[labels[p]];
    }
  }

  /** For any order of the vectors, the results have the same core points together, and the same noise. */
  lemma RunOrderIndependent(d: Input, e: Input, to: seq<nat>, from: seq<nat>, r: ClusterResult, s: ClusterResult)
    requires Symmetric(d) && Symmetric(e) && Reorders(d, e, to, from) && IsClustering(d, r) && IsClustering(e, s)
    ensures forall p, q | p in GraphOf(d).core && q in GraphOf(d).core :: SameCluster(r, p, q) <==> SameCluster(s, to[p], to[q])
    ensures forall p: nat | p < |to| :: p in r.noise <==> to[p] in s.noise
  {
    var a, j :| Correct(GraphOf(d), a, j) && Groups(a, j, r);
    var b, k :| Correct(GraphOf(e), b, k) && Groups(b, k, s);
    LabelsOrderIndependent(d, e, to, from, a, j, b, k);
    forall p, q | p in GraphOf(d).core && q in GraphOf(d).core
      ensures SameCluster(r, p, q) <==> SameCluster(s, to[p], to[q])
    {
      ReorderedDegree(d, e, to, from, p);
      SameClusterLabels(a, j, r, p, q);
      SameClusterLabels(b, k, s, to[p], to[q]);
    }
  }
}
