/**
 Grouping of difference markers into clusters. Each unvisited marker, in
 input order, seeds a cluster; full sweeps over the still-unvisited markers
 then union into the cluster every marker whose gap to the current, growing
 cluster is below the merge distance, until a sweep merges nothing. The
 finished cluster is padded and emitted.
 */
module Clustering {
  import opened Geometry

  /** Margin added on every side of a finished cluster. */
  const Padding := 10

  /** Number of markers not yet assigned to a cluster. */
  function CountUnvisited(visited: seq<bool>): nat {
    if |visited| == 0 then 0
    else (if visited[0] then 0 else 1) + CountUnvisited(visited[1..])
  }

  /** Every merge flips one unvisited flag, so the count drops by one. */
  lemma {:induction false} MarkVisitedCount(visited: seq<bool>, j: int)
    requires 0 <= j < |visited| && !visited[j]
    ensures CountUnvisited(visited[j := true]) == CountUnvisited(visited) - 1
  {
    if j == 0 {
      assert visited[j := true][1..] == visited[1..];
    } else {
      assert visited[j := true][1..] == visited[1..][j - 1 := true];
      MarkVisitedCount(visited[1..], j - 1);
    }
  }

  /** Marker j was unvisited in `before` and is visited in `after`. */
  predicate Absorbed(rects: seq<Rect>, before: seq<bool>, after: seq<bool>, j: int) {
    0 <= j < |rects| && j < |before| && j < |after| && !before[j] && after[j]
  }

  /** Every edge of `c` is the same edge of `seed` or of a marker absorbed
      between `before` and `after`. */
  ghost predicate EdgesAttained(c: Rect, seed: Rect, rects: seq<Rect>, before: seq<bool>, after: seq<bool>) {
    forall s: Side :: Edge(c, s) == Edge(seed, s)
      || exists j :: Absorbed(rects, before, after, j) && Edge(rects[j], s) == Edge(c, s)
  }

  lemma EdgesAttainedGrow(c: Rect, seed: Rect, rects: seq<Rect>, before: seq<bool>, after: seq<bool>, j0: int)
    requires EdgesAttained(c, seed, rects, before, after)
    requires |before| == |rects| && |after| == |rects|
    requires 0 <= j0 < |rects| && !before[j0] && !after[j0]
    ensures EdgesAttained(Union(c, rects[j0]), seed, rects, before, after[j0 := true])
  {
    var u := Union(c, rects[j0]);
    var after' := after[j0 := true];
    forall s: Side
      ensures Edge(u, s) == Edge(seed, s)
        || exists j :: Absorbed(rects, before, after', j) && Edge(rects[j], s) == Edge(u, s)
    {
      UnionEdge(c, rects[j0], s);
      if Edge(u, s) == Edge(rects[j0], s) {
        assert Absorbed(rects, before, after', j0);
      } else if Edge(c, s) != Edge(seed, s) {
        var j :| Absorbed(rects, before, after, j) && Edge(rects[j], s) == Edge(c, s);
        assert Absorbed(rects, before, after', j);
      }
    }
  }

  /** A box closed under merging: it holds the seed and every marker free in
      `visited` whose gap to the box is below the merge distance. */
  ghost predicate ClosedBox(b: Rect, seed: Rect, rects: seq<Rect>, visited: seq<bool>, mergeDistance: int) {
    && Contains(b, seed)
    && forall j :: 0 <= j < |rects| && j < |visited| && !visited[j] && Distance(b, rects[j]) < mergeDistance ==>
         Contains(b, rects[j])
  }

  /** `c` lies inside every closed box; a closed `c` is then the least one. */
  ghost predicate WithinClosedBoxes(c: Rect, seed: Rect, rects: seq<Rect>, visited: seq<bool>, mergeDistance: int) {
    forall b :: ClosedBox(b, seed, rects, visited, mergeDistance) ==> Contains(b, c)
  }

  /** Merging a free marker that is close to `c` cannot leave any closed box:
      the box holds `c`, so the marker is at least as close to the box. */
  lemma WithinClosedBoxesGrow(c: Rect, seed: Rect, rects: seq<Rect>, visited: seq<bool>, mergeDistance: int, j: int)
    requires WithinClosedBoxes(c, seed, rects, visited, mergeDistance)
    requires 0 <= j < |rects| && j < |visited| && !visited[j] && Distance(c, rects[j]) < mergeDistance
    ensures WithinClosedBoxes(Union(c, rects[j]), seed, rects, visited, mergeDistance)
  {
    forall b | ClosedBox(b, seed, rects, visited, mergeDistance)
      ensures Contains(b, Union(c, rects[j]))
    {
      DistanceShrinks(b, c, rects[j]);
      UnionIsLeast(c, rects[j], b);
    }
  }

  /** When a sweep merges nothing, the cluster is closed itself, and the
      markers it absorbed are exactly the free ones closer than the merge
      distance. */
  lemma SweepsDone(cluster: Rect, seed: Rect, rects: seq<Rect>, visited: seq<bool>, grown: seq<bool>, mergeDistance: int)
    requires |visited| == |rects| && |grown| == |rects|
    requires forall j :: 0 <= j < |rects| && visited[j] ==> grown[j]
    requires Contains(cluster, seed)
    requires forall j :: Absorbed(rects, visited, grown, j) ==> Contains(cluster, rects[j])
    requires forall j :: Absorbed(rects, visited, grown, j) ==> Distance(cluster, rects[j]) < mergeDistance
    requires forall j :: 0 <= j < |rects| && !grown[j] ==> Distance(cluster, rects[j]) >= mergeDistance
    ensures ClosedBox(cluster, seed, rects, visited, mergeDistance)
    ensures forall j :: 0 <= j < |rects| && !visited[j] ==> (grown[j] <==> Distance(cluster, rects[j]) < mergeDistance)
  {
    forall j | 0 <= j < |rects| && !visited[j] && grown[j]
      ensures Distance(cluster, rects[j]) < mergeDistance
    {
      assert Absorbed(rects, visited, grown, j);
    }
  }

  /** An absorbed marker stays closer than the merge distance as the cluster
      grows, since a larger cluster is never farther away. */
  lemma AbsorbedStayClose(c: Rect, rects: seq<Rect>, visited: seq<bool>, grown: seq<bool>, mergeDistance: int, j0: int)
    requires |visited| == |rects| && |grown| == |rects|
    requires forall j :: Absorbed(rects, visited, grown, j) ==> Distance(c, rects[j]) < mergeDistance
    requires 0 <= j0 < |rects| && !grown[j0] && Distance(c, rects[j0]) < mergeDistance
    ensures forall j :: Absorbed(rects, visited, grown[j0 := true], j) ==>
      Distance(Union(c, rects[j0]), rects[j]) < mergeDistance
  {
    forall j | Absorbed(rects, visited, grown[j0 := true], j)
      ensures Distance(Union(c, rects[j0]), rects[j]) < mergeDistance
    {
      DistanceShrinks(Union(c, rects[j0]), c, rects[j]);
      if j != j0 {
        assert Absorbed(rects, visited, grown, j);
      }
    }
  }

  /** What holds of a cluster grown from `seed` between sweeps: it holds the
      seed and every marker it absorbed, those stay closer than the merge
      distance, its edges are edges of members, and it lies inside every
      closed box. */
  ghost predicate Growing(rects: seq<Rect>, visited: seq<bool>, seed: Rect, mergeDistance: int,
                          cluster: Rect, grown: seq<bool>) {
    && |visited| == |rects| && |grown| == |rects|
    && (forall j :: 0 <= j < |rects| && visited[j] ==> grown[j])
    && Contains(cluster, seed)
    && (forall j :: Absorbed(rects, visited, grown, j) ==> Contains(cluster, rects[j]))
    && (forall j :: Absorbed(rects, visited, grown, j) ==> Distance(cluster, rects[j]) < mergeDistance)
    && EdgesAttained(cluster, seed, rects, visited, grown)
    && (grown == visited ==> cluster == seed)
    && (mergeDistance <= 0 ==> grown == visited)
    && WithinClosedBoxes(cluster, seed, rects, visited, mergeDistance)
  }

  /** Absorbing an unvisited marker closer than the merge distance keeps the
      cluster growing correctly and lowers the unvisited count by one. */
  lemma GrowingStep(rects: seq<Rect>, visited: seq<bool>, seed: Rect, mergeDistance: int,
                    cluster: Rect, grown: seq<bool>, j: int)
    requires Growing(rects, visited, seed, mergeDistance, cluster, grown)
    requires 0 <= j < |rects| && !grown[j] && Distance(cluster, rects[j]) < mergeDistance
    ensures Growing(rects, visited, seed, mergeDistance, Union(cluster, rects[j]), grown[j := true])
    ensures CountUnvisited(grown[j := true]) == CountUnvisited(grown) - 1
  {
    EdgesAttainedGrow(cluster, seed, rects, visited, grown, j);
    WithinClosedBoxesGrow(cluster, seed, rects, visited, mergeDistance, j);
    AbsorbedStayClose(cluster, rects, visited, grown, mergeDistance, j);
    MarkVisitedCount(grown, j);
    assert grown[j := true][j] != visited[j];
  }

  /** The do-while of one cluster: sweeps over the unvisited markers until
      a whole sweep merges nothing. */
  method GrowCluster(rects: seq<Rect>, visited: seq<bool>, seed: Rect, mergeDistance: int)
    returns (cluster: Rect, grown: seq<bool>)
    requires |visited| == |rects|
    ensures |grown| == |rects|
    ensures forall j :: 0 <= j < |rects| && visited[j] ==> grown[j]
    ensures Contains(cluster, seed)
    ensures forall j :: Absorbed(rects, visited, grown, j) ==> Contains(cluster, rects[j])
    ensures EdgesAttained(cluster, seed, rects, visited, grown)
    ensures forall j :: 0 <= j < |rects| && !grown[j] ==> Distance(cluster, rects[j]) >= mergeDistance
    ensures grown == visited ==> cluster == seed
    ensures mergeDistance <= 0 ==> grown == visited
    ensures ClosedBox(cluster, seed, rects, visited, mergeDistance)
    ensures WithinClosedBoxes(cluster, seed, rects, visited, mergeDistance)
    ensures forall j :: 0 <= j < |rects| && !visited[j] ==> (grown[j] <==> Distance(cluster, rects[j]) < mergeDistance)
  {
    cluster := seed;
    grown := visited;
    var merged := true;
    while merged
      invariant Growing(rects, visited, seed, mergeDistance, cluster, grown)
      invariant !merged ==> forall j :: 0 <= j < |rects| && !grown[j] ==> Distance(cluster, rects[j]) >= mergeDistance
      decreases CountUnvisited(grown) + (if merged then 1 else 0)
    {
      ghost var unvisitedBefore := CountUnvisited(grown);
      merged := false;
      var j := 0;
      while j < |rects|
        invariant 0 <= j <= |rects|
        invariant Growing(rects, visited, seed, mergeDistance, cluster, grown)
        invariant !merged ==> forall k :: 0 <= k < j && !grown[k] ==> Distance(cluster, rects[k]) >= mergeDistance
        invariant merged ==> CountUnvisited(grown) < unvisitedBefore
        invariant !merged ==> CountUnvisited(grown) == unvisitedBefore
      {
        if !grown[j] {
          if Distance(cluster, rects[j]) < mergeDistance {
            GrowingStep(rects, visited, seed, mergeDistance, cluster, grown, j);
            cluster := Union(cluster, rects[j]);
            grown := grown[j := true];
            merged := true;
          }
        }
        j := j + 1;
      }
    }
    SweepsDone(cluster, seed, rects, visited, grown, mergeDistance);
  }

  /** `c` is the bounding box of the markers `owner` assigns to cluster k:
      it holds every one of them and each of its edges is an edge of one. */
  ghost predicate BoundingBoxOf(c: Rect, rects: seq<Rect>, owner: seq<int>, k: int) {
    && |owner| == |rects|
    && (forall j :: 0 <= j < |rects| && owner[j] == k ==> Contains(c, rects[j]))
    && (forall s: Side :: EdgeOfSomeMember(c, s, rects, owner, k))
  }

  ghost predicate EdgeOfSomeMember(c: Rect, s: Side, rects: seq<Rect>, owner: seq<int>, k: int) {
    exists j :: EdgeOfMember(c, s, rects, owner, k, j)
  }

  /** Marker j belongs to cluster k and has the same `s` edge as `c`. */
  predicate EdgeOfMember(c: Rect, s: Side, rects: seq<Rect>, owner: seq<int>, k: int, j: int) {
    0 <= j < |rects| && j < |owner| && owner[j] == k && Edge(rects[j], s) == Edge(c, s)
  }

  lemma BoundingBoxStable(c: Rect, rects: seq<Rect>, oldOwner: seq<int>, newOwner: seq<int>, k: int)
    requires BoundingBoxOf(c, rects, oldOwner, k) && |newOwner| == |rects|
    requires forall j :: 0 <= j < |rects| ==> (newOwner[j] == k <==> oldOwner[j] == k)
    ensures BoundingBoxOf(c, rects, newOwner, k)
  {
    forall j | 0 <= j < |rects| && newOwner[j] == k
      ensures Contains(c, rects[j])
    {
      assert oldOwner[j] == k;
    }
    forall s: Side
      ensures EdgeOfSomeMember(c, s, rects, newOwner, k)
    {
      assert EdgeOfSomeMember(c, s, rects, oldOwner, k);
      var j :| EdgeOfMember(c, s, rects, oldOwner, k, j);
      assert EdgeOfMember(c, s, rects, newOwner, k, j);
    }
  }

  /** A grown cluster is the bounding box of its seed and the markers it
      absorbed. */
  lemma GrownIsBoundingBox(cluster: Rect, rects: seq<Rect>, before: seq<bool>, grown: seq<bool>,
                           i: int, owner: seq<int>, k: int)
    requires |before| == |rects| && |grown| == |rects| && |owner| == |rects|
    requires 0 <= i < |rects|
    requires Contains(cluster, rects[i])
    requires forall j :: Absorbed(rects, before, grown, j) ==> Contains(cluster, rects[j])
    requires EdgesAttained(cluster, rects[i], rects, before, grown)
    requires forall j :: 0 <= j < |rects| ==> (owner[j] == k <==> j == i || Absorbed(rects, before, grown, j))
    ensures BoundingBoxOf(cluster, rects, owner, k)
  {
    forall s: Side
      ensures EdgeOfSomeMember(cluster, s, rects, owner, k)
    {
      if Edge(cluster, s) == Edge(rects[i], s) {
        assert EdgeOfMember(cluster, s, rects, owner, k, i);
      } else {
        var j :| Absorbed(rects, before, grown, j) && Edge(rects[j], s) == Edge(cluster, s);
        assert EdgeOfMember(cluster, s, rects, owner, k, j);
      }
    }
  }

  /** The state of the grouping pass before seed i: `visited[j]` holds
      exactly when marker j has an owner, and owners are existing clusters. */
  ghost predicate OwnersTracked(rects: seq<Rect>, visited: seq<bool>, owner: seq<int>, clusters: seq<Rect>, i: int) {
    && 0 <= i <= |rects|
    && |visited| == |rects| && |owner| == |rects|
    && (forall j :: 0 <= j < |rects| ==> (visited[j] <==> 0 <= owner[j]) && owner[j] < |clusters|)
    && (forall j :: 0 <= j < i ==> visited[j])
    && |clusters| <= i && (0 < i ==> 0 < |clusters|)
  }

  /** Every cluster is the bounding box of its members. */
  ghost predicate AllBoundingBoxes(rects: seq<Rect>, owner: seq<int>, clusters: seq<Rect>) {
    forall k :: 0 <= k < |clusters| ==> BoundingBoxOf(clusters[k], rects, owner, k)
  }

  /** Cluster k was seeded by marker seeds[k], the first marker it owns;
      every earlier marker belongs to an earlier cluster. */
  ghost predicate SeedsFirst(owner: seq<int>, seeds: seq<int>, i: int) {
    forall k :: 0 <= k < |seeds| ==>
      && 0 <= seeds[k] < i && seeds[k] < |owner| && owner[seeds[k]] == k
      && forall j :: 0 <= j < seeds[k] ==> owner[j] < k
  }

  /** A finished cluster keeps its distance from every marker that was still
      unvisited when it was finished. */
  ghost predicate Separated(rects: seq<Rect>, owner: seq<int>, clusters: seq<Rect>, mergeDistance: int) {
    forall k, j :: 0 <= k < |clusters| && 0 <= j < |rects| && j < |owner| && (owner[j] < 0 || k < owner[j]) ==>
      Distance(clusters[k], rects[j]) >= mergeDistance
  }

  /** With a merge distance that is not positive, every marker is its own
      cluster. */
  ghost predicate Singletons(rects: seq<Rect>, owner: seq<int>, clusters: seq<Rect>, i: int) {
    && |clusters| == i <= |rects| && |owner| == |rects|
    && (forall j :: 0 <= j < |rects| ==> owner[j] == if j < i then j else -1)
    && (forall j :: 0 <= j < i ==> clusters[j] == rects[j])
  }

  /** Owners after growing cluster k: the markers it absorbed join it. */
  function Reassign(owner: seq<int>, visited: seq<bool>, grown: seq<bool>, k: int): seq<int>
    requires |visited| == |owner| && |grown| == |owner|
  {
    seq(|owner|, j requires 0 <= j < |owner| => if !visited[j] && grown[j] then k else owner[j])
  }

  /** The markers assigned to clusters 0 .. k-1. */
  function Before(owner: seq<int>, k: int): seq<bool> {
    seq(|owner|, j requires 0 <= j < |owner| => 0 <= owner[j] < k)
  }

  /** Whether the seed itself counts as free does not matter to a box that
      must hold the seed anyway. */
  lemma ClosedBoxSeedFlag(b: Rect, rects: seq<Rect>, visited: seq<bool>, i: int, mergeDistance: int)
    requires 0 <= i < |rects| == |visited|
    ensures ClosedBox(b, rects[i], rects, visited, mergeDistance)
      <==> ClosedBox(b, rects[i], rects, visited[i := true], mergeDistance)
  {
  }

  lemma WithinClosedBoxesSeedFlag(c: Rect, rects: seq<Rect>, visited: seq<bool>, i: int, mergeDistance: int)
    requires 0 <= i < |rects| == |visited|
    requires WithinClosedBoxes(c, rects[i], rects, visited[i := true], mergeDistance)
    ensures WithinClosedBoxes(c, rects[i], rects, visited, mergeDistance)
  {
    forall b | ClosedBox(b, rects[i], rects, visited, mergeDistance)
      ensures Contains(b, c)
    {
      ClosedBoxSeedFlag(b, rects, visited, i, mergeDistance);
    }
  }

  /** Cluster k is the least box that holds its seed and is closed under
      merging the markers not taken by clusters 0 .. k-1. */
  ghost predicate LeastClusters(rects: seq<Rect>, owner: seq<int>, clusters: seq<Rect>, seeds: seq<int>, mergeDistance: int) {
    forall k :: 0 <= k < |clusters| && k < |seeds| && 0 <= seeds[k] < |rects| ==>
      && ClosedBox(clusters[k], rects[seeds[k]], rects, Before(owner, k), mergeDistance)
      && WithinClosedBoxes(clusters[k], rects[seeds[k]], rects, Before(owner, k), mergeDistance)
  }

  /** Seeding and growing cluster K keeps every earlier cluster least, and
      makes cluster K least too. */
  lemma LeastStep(rects: seq<Rect>, mergeDistance: int, i: int, visited: seq<bool>, owner: seq<int>,
                  clusters: seq<Rect>, seeds: seq<int>, cluster: Rect, grown: seq<bool>)
    requires OwnersTracked(rects, visited, owner, clusters, i) && i < |rects| && !visited[i]
    requires |seeds| == |clusters|
    requires LeastClusters(rects, owner, clusters, seeds, mergeDistance)
    requires |grown| == |rects|
    requires forall j :: 0 <= j < |rects| && visited[i := true][j] ==> grown[j]
    requires ClosedBox(cluster, rects[i], rects, visited[i := true], mergeDistance)
    requires WithinClosedBoxes(cluster, rects[i], rects, visited[i := true], mergeDistance)
    ensures LeastClusters(rects, Reassign(owner, visited, grown, |clusters|), clusters + [cluster], seeds + [i], mergeDistance)
  {
    var K := |clusters|;
    var owner' := Reassign(owner, visited, grown, K);
    forall k | 0 <= k < K
      ensures Before(owner', k) == Before(owner, k)
    {
    }
    assert Before(owner', K) == visited;
    ClosedBoxSeedFlag(cluster, rects, visited, i, mergeDistance);
    WithinClosedBoxesSeedFlag(cluster, rects, visited, i, mergeDistance);
  }

  /** Seeding cluster k = |clusters| at the unvisited marker i and growing it
      keeps every property of the pass. */
  lemma SeedStep(rects: seq<Rect>, mergeDistance: int, i: int, visited: seq<bool>, owner: seq<int>,
                 clusters: seq<Rect>, seeds: seq<int>, cluster: Rect, grown: seq<bool>)
    requires OwnersTracked(rects, visited, owner, clusters, i) && i < |rects| && !visited[i]
    requires AllBoundingBoxes(rects, owner, clusters)
    requires SeedsFirst(owner, seeds, i) && |seeds| == |clusters|
    requires Separated(rects, owner, clusters, mergeDistance)
    requires mergeDistance <= 0 ==> Singletons(rects, owner, clusters, i)
    // what GrowCluster promises, started from visited[i := true] and rects[i]
    requires |grown| == |rects|
    requires forall j :: 0 <= j < |rects| && visited[i := true][j] ==> grown[j]
    requires Contains(cluster, rects[i])
    requires forall j :: Absorbed(rects, visited[i := true], grown, j) ==> Contains(cluster, rects[j])
    requires EdgesAttained(cluster, rects[i], rects, visited[i := true], grown)
    requires forall j :: 0 <= j < |rects| && !grown[j] ==> Distance(cluster, rects[j]) >= mergeDistance
    requires grown == visited[i := true] ==> cluster == rects[i]
    requires mergeDistance <= 0 ==> grown == visited[i := true]
    ensures OwnersTracked(rects, grown, Reassign(owner, visited, grown, |clusters|), clusters + [cluster], i + 1)
    ensures AllBoundingBoxes(rects, Reassign(owner, visited, grown, |clusters|), clusters + [cluster])
    ensures SeedsFirst(Reassign(owner, visited, grown, |clusters|), seeds + [i], i + 1)
    ensures Separated(rects, Reassign(owner, visited, grown, |clusters|), clusters + [cluster], mergeDistance)
    ensures mergeDistance <= 0 ==> Singletons(rects, Reassign(owner, visited, grown, |clusters|), clusters + [cluster], i + 1)
  {
    var k := |clusters|;
    var owner' := Reassign(owner, visited, grown, k);
    var clusters' := clusters + [cluster];
    assert forall j :: 0 <= j < |rects| ==> owner'[j] == if !visited[j] && grown[j] then k else owner[j];
    assert owner'[i] == k;
    GrownIsBoundingBox(cluster, rects, visited[i := true], grown, i, owner', k);
    forall k' | 0 <= k' < |clusters'|
      ensures BoundingBoxOf(clusters'[k'], rects, owner', k')
    {
      if k' < k {
        BoundingBoxStable(clusters[k'], rects, owner, owner', k');
      }
    }
    if mergeDistance <= 0 {
      assert grown == visited[i := true];
      assert cluster == rects[i];
    }
  }

  /** Every member of a cluster other than its seed is closer than the merge
      distance to the cluster. */
  ghost predicate MembersClose(rects: seq<Rect>, owner: seq<int>, clusters: seq<Rect>, seeds: seq<int>, mergeDistance: int) {
    forall j ::
      (0 <= j < |rects| && j < |owner| && 0 <= owner[j] < |clusters| && owner[j] < |seeds| && j != seeds[owner[j]]) ==>
        Distance(clusters[owner[j]], rects[j]) < mergeDistance
  }

  /** Seeding and growing cluster K: its absorbed markers are close to it,
      and earlier clusters keep their members. */
  lemma MembersStep(rects: seq<Rect>, mergeDistance: int, i: int, visited: seq<bool>, owner: seq<int>,
                    clusters: seq<Rect>, seeds: seq<int>, cluster: Rect, grown: seq<bool>)
    requires OwnersTracked(rects, visited, owner, clusters, i) && i < |rects| && !visited[i]
    requires |seeds| == |clusters|
    requires MembersClose(rects, owner, clusters, seeds, mergeDistance)
    requires |grown| == |rects|
    requires forall j :: 0 <= j < |rects| && !visited[i := true][j] ==>
      (grown[j] <==> Distance(cluster, rects[j]) < mergeDistance)
    ensures MembersClose(rects, Reassign(owner, visited, grown, |clusters|), clusters + [cluster], seeds + [i], mergeDistance)
  {
    var K := |clusters|;
    var owner', clusters', seeds' := Reassign(owner, visited, grown, K), clusters + [cluster], seeds + [i];
    forall j | 0 <= j < |rects| && 0 <= owner'[j] < |clusters'| && j != seeds'[owner'[j]]
      ensures Distance(clusters'[owner'[j]], rects[j]) < mergeDistance
    {
      if !visited[j] && grown[j] {
        assert owner'[j] == K && j != i;
        assert !visited[i := true][j];
      } else {
        assert owner'[j] == owner[j] < K;
      }
    }
  }

  /** Everything the grouping pass maintains before seed i. */
  ghost predicate PassInvariant(rects: seq<Rect>, mergeDistance: int, i: int, visited: seq<bool>, owner: seq<int>,
                                clusters: seq<Rect>, seeds: seq<int>) {
    && OwnersTracked(rects, visited, owner, clusters, i)
    && |seeds| == |clusters|
    && AllBoundingBoxes(rects, owner, clusters)
    && SeedsFirst(owner, seeds, i)
    && Separated(rects, owner, clusters, mergeDistance)
    && (mergeDistance <= 0 ==> Singletons(rects, owner, clusters, i))
    && LeastClusters(rects, owner, clusters, seeds, mergeDistance)
    && MembersClose(rects, owner, clusters, seeds, mergeDistance)
  }

  /** Skipping a marker that an earlier cluster already took. */
  lemma PassSkip(rects: seq<Rect>, mergeDistance: int, i: int, visited: seq<bool>, owner: seq<int>,
                 clusters: seq<Rect>, seeds: seq<int>)
    requires PassInvariant(rects, mergeDistance, i, visited, owner, clusters, seeds)
    requires i < |rects| && visited[i]
    ensures PassInvariant(rects, mergeDistance, i + 1, visited, owner, clusters, seeds)
  {
  }

  /** Seeding a cluster at marker i and growing it as GrowCluster promises. */
  lemma PassStep(rects: seq<Rect>, mergeDistance: int, i: int, visited: seq<bool>, owner: seq<int>,
                 clusters: seq<Rect>, seeds: seq<int>, cluster: Rect, grown: seq<bool>)
    requires PassInvariant(rects, mergeDistance, i, visited, owner, clusters, seeds)
    requires i < |rects| && !visited[i]
    requires |grown| == |rects|
    requires forall j :: 0 <= j < |rects| && visited[i := true][j] ==> grown[j]
    requires Contains(cluster, rects[i])
    requires forall j :: Absorbed(rects, visited[i := true], grown, j) ==> Contains(cluster, rects[j])
    requires EdgesAttained(cluster, rects[i], rects, visited[i := true], grown)
    requires forall j :: 0 <= j < |rects| && !grown[j] ==> Distance(cluster, rects[j]) >= mergeDistance
    requires grown == visited[i := true] ==> cluster == rects[i]
    requires mergeDistance <= 0 ==> grown == visited[i := true]
    requires ClosedBox(cluster, rects[i], rects, visited[i := true], mergeDistance)
    requires WithinClosedBoxes(cluster, rects[i], rects, visited[i := true], mergeDistance)
    requires forall j :: 0 <= j < |rects| && !visited[i := true][j] ==>
      (grown[j] <==> Distance(cluster, rects[j]) < mergeDistance)
    ensures PassInvariant(rects, mergeDistance, i + 1, grown, Reassign(owner, visited, grown, |clusters|),
                          clusters + [cluster], seeds + [i])
  {
    SeedStep(rects, mergeDistance, i, visited, owner, clusters, seeds, cluster, grown);
    LeastStep(rects, mergeDistance, i, visited, owner, clusters, seeds, cluster, grown);
    MembersStep(rects, mergeDistance, i, visited, owner, clusters, seeds, cluster, grown);
  }

  /** Padded regions `grouped` are the grouping of `rects` at `mergeDistance`,
      with the clusters before padding, the owning cluster of each marker and
      the seed of each cluster as witnesses:
      - empty in, empty out; otherwise between 1 and |rects| regions, each
        its cluster padded;
      - every marker has one owner, and each cluster is the bounding box of
        the markers it owns;
      - cluster k is seeded by the first marker it owns, and every earlier
        marker belongs to an earlier cluster;
      - cluster k is the least closed box around its seed over the markers
        clusters 0 .. k-1 left free, and among those free markers it owns
        exactly its seed and the ones closer than the merge distance to it;
      - markers closer than the merge distance share a cluster;
      - with a merge distance that is not positive, every marker is padded
        on its own. */
  ghost predicate Grouping(rects: seq<Rect>, mergeDistance: int, grouped: seq<Rect>,
                           clusters: seq<Rect>, owner: seq<int>, seeds: seq<int>) {
    && (|rects| == 0 ==> grouped == [])
    && (0 < |rects| ==> 1 <= |grouped| <= |rects|)
    && |clusters| == |grouped| && |seeds| == |grouped|
    && (forall k :: 0 <= k < |grouped| ==> grouped[k] == Pad(clusters[k], Padding))
    && |owner| == |rects| && (forall j :: 0 <= j < |rects| ==> 0 <= owner[j] < |clusters|)
    && (forall k :: 0 <= k < |clusters| ==> BoundingBoxOf(clusters[k], rects, owner, k))
    && (forall k :: 0 <= k < |seeds| ==>
         0 <= seeds[k] < |rects| && owner[seeds[k]] == k
         && forall j :: 0 <= j < seeds[k] ==> owner[j] < k)
    && LeastClusters(rects, owner, clusters, seeds, mergeDistance)
    && (forall k, j :: 0 <= k < |clusters| && 0 <= j < |rects| && k <= owner[j] ==>
         (owner[j] == k <==> j == seeds[k] || Distance(clusters[k], rects[j]) < mergeDistance))
    && (forall j1, j2 :: 0 <= j1 < |rects| && 0 <= j2 < |rects| && Distance(rects[j1], rects[j2]) < mergeDistance ==>
         owner[j1] == owner[j2])
    && (mergeDistance <= 0 ==>
         |grouped| == |rects| && forall j :: 0 <= j < |rects| ==> grouped[j] == Pad(rects[j], Padding))
  }

  /** What a grouping says about the regions alone. */
  lemma GroupingRegions(rects: seq<Rect>, mergeDistance: int, grouped: seq<Rect>,
                        clusters: seq<Rect>, owner: seq<int>, seeds: seq<int>)
    requires Grouping(rects, mergeDistance, grouped, clusters, owner, seeds)
    ensures |rects| == 0 <==> grouped == []
    ensures |grouped| <= |rects|
    ensures mergeDistance <= 0 ==>
      |grouped| == |rects| && forall j :: 0 <= j < |rects| ==> grouped[j] == Pad(rects[j], Padding)
  {
  }

  /** What the finished pass establishes about its clusters. */
  lemma PassDone(rects: seq<Rect>, mergeDistance: int, visited: seq<bool>, owner: seq<int>,
                 clusters: seq<Rect>, seeds: seq<int>)
    requires PassInvariant(rects, mergeDistance, |rects|, visited, owner, clusters, seeds)
    requires 0 < |rects|
    ensures Grouping(rects, mergeDistance, seq(|clusters|, k requires 0 <= k < |clusters| => Pad(clusters[k], Padding)),
                     clusters, owner, seeds)
  {
    CloseMarkersShareCluster(rects, owner, clusters, mergeDistance);
    forall k, j | 0 <= k < |clusters| && 0 <= j < |rects| && k <= owner[j]
      ensures owner[j] == k <==> j == seeds[k] || Distance(clusters[k], rects[j]) < mergeDistance
    {
      if owner[j] == k && j != seeds[k] {
        assert Distance(clusters[owner[j]], rects[j]) < mergeDistance;
      }
    }
  }

  /** The grouping pass. Besides the padded regions it returns, as ghost
      outputs, the clusters before padding, the cluster `owner[j]` each
      marker was assigned to, and the seed marker of each cluster. */
  method GroupRectangles(rects: seq<Rect>, mergeDistance: int)
    returns (grouped: seq<Rect>, ghost clusters: seq<Rect>, ghost owner: seq<int>, ghost seeds: seq<int>)
    ensures Grouping(rects, mergeDistance, grouped, clusters, owner, seeds)
    // the part of `Grouping` that speaks of the regions alone
    ensures |rects| == 0 <==> grouped == []
    ensures |grouped| <= |rects|
    ensures mergeDistance <= 0 ==>
      |grouped| == |rects| && forall j :: 0 <= j < |rects| ==> grouped[j] == Pad(rects[j], Padding)
  {
    if |rects| == 0 {
      return [], [], [], [];
    }
    grouped, clusters, seeds := [], [], [];
    var visited := seq(|rects|, _ => false);
    owner := seq(|rects|, _ => -1);
    var i := 0;
    while i < |rects|
      invariant 0 <= i <= |rects|
      invariant PassInvariant(rects, mergeDistance, i, visited, owner, clusters, seeds)
      invariant |clusters| == |grouped|
      invariant forall k :: 0 <= k < |grouped| ==> grouped[k] == Pad(clusters[k], Padding)
    {
      if visited[i] {
        PassSkip(rects, mergeDistance, i, visited, owner, clusters, seeds);
      } else {
        var cluster, grown := GrowCluster(rects, visited[i := true], rects[i], mergeDistance);
        PassStep(rects, mergeDistance, i, visited, owner, clusters, seeds, cluster, grown);
        owner := Reassign(owner, visited, grown, |clusters|);
        visited := grown;
        clusters := clusters + [cluster];
        seeds := seeds + [i];
        grouped := grouped + [Pad(cluster, Padding)];
      }
      i := i + 1;
    }
    PassDone(rects, mergeDistance, visited, owner, clusters, seeds);
    assert grouped == seq(|clusters|, k requires 0 <= k < |clusters| => Pad(clusters[k], Padding));
    GroupingRegions(rects, mergeDistance, grouped, clusters, owner, seeds);
  }

  /** Markers closer than the merge distance always share a cluster: when
      the earlier of their clusters was finished, the other marker was still
      unvisited and at least the merge distance away from it. */
  lemma CloseMarkersShareCluster(rects: seq<Rect>, owner: seq<int>, clusters: seq<Rect>, mergeDistance: int)
    requires |owner| == |rects| && forall j :: 0 <= j < |rects| ==> 0 <= owner[j] < |clusters|
    requires AllBoundingBoxes(rects, owner, clusters)
    requires Separated(rects, owner, clusters, mergeDistance)
    ensures forall j1, j2 :: 0 <= j1 < |rects| && 0 <= j2 < |rects| && Distance(rects[j1], rects[j2]) < mergeDistance ==>
      owner[j1] == owner[j2]
  {
    forall j1, j2 | 0 <= j1 < |rects| && 0 <= j2 < |rects| && owner[j1] < owner[j2]
      ensures Distance(rects[j1], rects[j2]) >= mergeDistance
      ensures Distance(rects[j2], rects[j1]) >= mergeDistance
    {
      var k := owner[j1];
      assert BoundingBoxOf(clusters[k], rects, owner, k);
      DistanceShrinks(clusters[k], rects[j1], rects[j2]);
      DistanceSymmetric(rects[j1], rects[j2]);
    }
  }
}
