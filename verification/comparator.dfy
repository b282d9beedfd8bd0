/**
 The comparison pipeline of CompareAndHighlightImproved for two images of
 the same size: detect the difference markers, then group them into padded
 regions. Drawing the regions onto the output image is not modelled.
 */
module Comparator {
  import opened Geometry
  import opened Imaging
  import opened Detection
  import opened Clustering

  /** Default parameters of the comparison. */
  const DefaultThreshold := 25
  const DefaultClusterDistance := 15

  /** A cluster of markers that lie in the non-negative quadrant lies there
      too, since its left and top edges are those of members. */
  lemma ClusterInQuadrant(c: Rect, rects: seq<Rect>, owner: seq<int>, k: int)
    requires BoundingBoxOf(c, rects, owner, k)
    requires forall j :: 0 <= j < |rects| ==> 0 <= rects[j].x && 0 <= rects[j].y
    ensures 0 <= c.Left() && 0 <= c.Top()
  {
    assert EdgeOfSomeMember(c, LeftSide, rects, owner, k);
    assert EdgeOfSomeMember(c, TopSide, rects, owner, k);
  }

  /** `region` covers at least one of the markers. */
  predicate CoversSomeMarker(region: Rect, markers: seq<Rect>) {
    exists m :: m in markers && Contains(region, m)
  }

  /** The padded clusters cover every marker, and each padded cluster
      covers its seed marker. */
  lemma RegionsCoverMarkers(markers: seq<Rect>, regions: seq<Rect>, clusters: seq<Rect>, owner: seq<int>, seeds: seq<int>)
    requires forall j :: 0 <= j < |markers| ==> 0 <= markers[j].x && 0 <= markers[j].y
    requires |clusters| == |regions| && |seeds| == |regions|
    requires forall k :: 0 <= k < |regions| ==> regions[k] == Pad(clusters[k], Padding)
    requires |owner| == |markers| && forall j :: 0 <= j < |markers| ==> 0 <= owner[j] < |clusters|
    requires forall k :: 0 <= k < |clusters| ==> BoundingBoxOf(clusters[k], markers, owner, k)
    requires forall k :: 0 <= k < |seeds| ==> 0 <= seeds[k] < |markers| && owner[seeds[k]] == k
    ensures forall j :: 0 <= j < |markers| ==> Contains(regions[owner[j]], markers[j])
    ensures forall k :: 0 <= k < |regions| ==> CoversSomeMarker(regions[k], markers)
  {
    forall k | 0 <= k < |clusters|
      ensures Contains(regions[k], clusters[k])
    {
      ClusterInQuadrant(clusters[k], markers, owner, k);
      PadContains(clusters[k], Padding);
    }
    forall j | 0 <= j < |markers|
      ensures Contains(regions[owner[j]], markers[j])
    {
      var k := owner[j];
      assert BoundingBoxOf(clusters[k], markers, owner, k);
      ContainsTransitive(regions[k], clusters[k], markers[j]);
    }
    forall k | 0 <= k < |regions|
      ensures CoversSomeMarker(regions[k], markers)
    {
      var j := seeds[k];
      assert markers[j] in markers && Contains(regions[owner[j]], markers[j]);
    }
  }

  /** The comparison of CompareAndHighlightImproved for images of the same
      size: detect the markers, then group them at `clusterDistance`. The
      regions are the grouping of exactly the difference markers; every
      differing pixel is covered by some region, every region covers some
      differing pixel, and there are never more regions than markers. */
  method CompareRegions(img1: Image, img2: Image, threshold: int := DefaultThreshold,
                        clusterDistance: int := DefaultClusterDistance)
    returns (regions: seq<Rect>, ghost clusters: seq<Rect>, ghost owner: seq<int>, ghost seeds: seq<int>)
    requires img1.width == img2.width && img1.height == img2.height
    ensures Grouping(DiffMarkers(img1, img2, threshold), clusterDistance, regions, clusters, owner, seeds)
    ensures |regions| <= |DiffMarkers(img1, img2, threshold)|
    ensures regions == [] <==> DiffMarkers(img1, img2, threshold) == []
    ensures img1 == img2 && 0 <= threshold ==> regions == []
    ensures forall x, y :: InBounds(img1, x, y) && Differs(img1, img2, threshold, x, y) ==>
      exists k :: 0 <= k < |regions| && Contains(regions[k], Marker(x, y))
    ensures forall k :: 0 <= k < |regions| ==> CoversSomeMarker(regions[k], DiffMarkers(img1, img2, threshold))
  {
    var detected := DetectDifferenceAreas(img1, img2, threshold);
    var markers := detected.value;
    DiffMarkersExact(img1, img2, threshold);
    assert forall j :: 0 <= j < |markers| ==> markers[j] in markers;
    regions, clusters, owner, seeds := GroupRectangles(markers, clusterDistance);
    RegionsCoverMarkers(markers, regions, clusters, owner, seeds);
    forall x, y | InBounds(img1, x, y) && Differs(img1, img2, threshold, x, y)
      ensures exists k :: 0 <= k < |regions| && Contains(regions[k], Marker(x, y))
    {
      assert IsDiffMarker(img1, img2, threshold, Marker(x, y));
      var j :| 0 <= j < |markers| && markers[j] == Marker(x, y);
      assert Contains(regions[owner[j]], markers[j]);
    }
  }

  /** Two markers at least the merge distance apart stay in clusters of
      their own: each is a closed box by itself, a cluster is the least
      closed box around its seed, and the second marker is not close to the
      first cluster. */
  lemma DistantPairClusters(a: Rect, b: Rect, mergeDistance: int, clusters: seq<Rect>, owner: seq<int>, seeds: seq<int>)
    requires Distance(a, b) >= mergeDistance
    requires |clusters| <= 2 && |seeds| == |clusters|
    requires |owner| == 2 && forall j :: 0 <= j < 2 ==> 0 <= owner[j] < |clusters|
    requires forall k :: 0 <= k < |clusters| ==> BoundingBoxOf(clusters[k], [a, b], owner, k)
    requires forall k :: 0 <= k < |seeds| ==>
      0 <= seeds[k] < 2 && owner[seeds[k]] == k
      && forall j :: 0 <= j < seeds[k] ==> owner[j] < k
    requires LeastClusters([a, b], owner, clusters, seeds, mergeDistance)
    requires forall k, j :: 0 <= k < |clusters| && 0 <= j < 2 && k <= owner[j] ==>
      (owner[j] == k <==> j == seeds[k] || Distance(clusters[k], [a, b][j]) < mergeDistance)
    ensures clusters == [a, b]
  {
    var rects := [a, b];
    assert 0 <= owner[0] && seeds[0] == 0;
    assert ClosedBox(a, a, rects, Before(owner, 0), mergeDistance);
    assert Contains(a, clusters[0]) && Contains(clusters[0], a);
    ContainsAntisymmetric(clusters[0], a);
    assert 0 <= owner[1] && !(1 == seeds[0] || Distance(clusters[0], b) < mergeDistance);
    assert owner[1] == 1 && |clusters| == 2 && seeds[1] == 1;
    assert Before(owner, 1)[0] && !Before(owner, 1)[1];
    assert ClosedBox(b, b, rects, Before(owner, 1), mergeDistance);
    ContainsAntisymmetric(clusters[1], b);
  }

  /** Grouping two markers at least the merge distance apart pads each on
      its own. */
  lemma DistantPairGrouping(a: Rect, b: Rect, mergeDistance: int, grouped: seq<Rect>,
                            clusters: seq<Rect>, owner: seq<int>, seeds: seq<int>)
    requires Grouping([a, b], mergeDistance, grouped, clusters, owner, seeds)
    requires Distance(a, b) >= mergeDistance
    ensures grouped == [Pad(a, Padding), Pad(b, Padding)]
  {
    DistantPairClusters(a, b, mergeDistance, clusters, owner, seeds);
  }

  /** The markers of pixels (0, 0) and (8, 8) are 8 apart, so grouping them
      with a merge distance of 5 leaves each in a region of its own. */
  method DiagonalMarkersStaySeparate() returns (grouped: seq<Rect>)
    ensures grouped == [Pad(Marker(0, 0), Padding), Pad(Marker(8, 8), Padding)]
  {
    var rects := [Marker(0, 0), Marker(8, 8)];
    ghost var clusters, owner, seeds;
    grouped, clusters, owner, seeds := GroupRectangles(rects, 5);
    DiagonalMarkersApart();
    DistantPairGrouping(Marker(0, 0), Marker(8, 8), 5, grouped, clusters, owner, seeds);
  }
}
