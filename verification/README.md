# Difference detection and clustering of PdfComparatorService

This project models, in Dafny, the algorithmic core of `PdfComparatorService`
from the PdfCompareApi repository. That core compares two rasterised PDF pages
and finds the regions where they differ. It has three stages:

- **Detection** (`DetectDifferenceAreas`). Both images are scanned row by row.
  For every pixel (x, y), the Manhattan distance |ΔR| + |ΔG| + |ΔB| is computed.
  When it exceeds the threshold, a 2×2 marker rectangle anchored at (x, y) is
  emitted.
- **Grouping** (`GroupRectangles`). Each marker not yet visited seeds a
  cluster, in input order. Full sweeps over the unvisited markers then union
  into the cluster every marker whose gap to the growing cluster is below the
  merge distance. The sweeps stop when one merges nothing. The finished cluster
  is padded by 10 and emitted.
- **Geometry**. Rectangles follow `System.Drawing.Rectangle`: Right = X + Width,
  Bottom = Y + Height, and Union is the bounding box. The gap `Distance` is the
  edge-to-edge Euclidean distance, truncated to an integer. `PadRectangle`
  grows a rectangle on all four sides and clamps left and top at 0.

Modules, one per concern:

| file | module | contents |
|---|---|---|
| geometry.dfy | `Geometry` | `Rect`, `Contains`, `Union`, `ISqrt`, `Distance`, `Pad` |
| imaging.dfy | `Imaging` | `Color` (8-bit R, G, B), `Bitmap`/`Image`, `GetPixel`, `ColorDiff` |
| sequences.dfy | `Sequences` | `IsSubsequence` and its lemmas |
| detection.dfy | `Detection` | the row-major marker specification and the nested-loop scan |
| clustering.dfy | `Clustering` | the do-while (`GrowCluster`) and the outer seeding loop (`GroupRectangles`) |
| comparator.dfy | `Comparator` | detect, then group, for two images of the same size |

The model contains no floating point. `(int)Math.Sqrt(n)` is modelled as the
integer floor square root `ISqrt`, characterised by r·r ≤ n < (r+1)·(r+1).
`Geometry.DistanceBelowIff` shows that the merge test `Distance(a, b) < m`
holds exactly when m > 0 and dx² + dy² < m².

Three properties of the code that a reader might expect otherwise:

- The gap is zero only when the rectangles overlap or touch on both axes.
  Overlap on one axis leaves the full gap on the other (`DistanceZeroIff`,
  `DistanceOneAxis`).
- Output regions can overlap. The code never compares a new cluster with
  earlier ones, so a later cluster can reach into an earlier one. The model
  therefore claims an assignment instead of disjointness: every marker has
  exactly one owning cluster (`owner`).
- There is no error for images of unequal size or of zero area. A zero-area
  image simply yields no markers. Unequal sizes fail only when `GetPixel` on
  the second image goes out of range, which happens when the second image is
  smaller than the first in some dimension and the first image has pixels.
  That exception is `Err(PixelOutOfRange)`.

The grouping is stated step by step (`Clustering.Grouping`). Call a box
closed for a seed when it holds the seed and every still-free marker whose
gap to the box is below the merge distance. Then:

- each cluster is closed, and it lies inside every closed box for its seed,
  so it is the least one (`ClosedBox`, `WithinClosedBoxes`);
- among the markers that earlier clusters left free, a cluster owns exactly
  its seed and the markers closer than the merge distance to it;
- the next cluster is seeded by the first marker not yet owned.

These are the three choices the code makes for every cluster. They hold for
rectangles of any size, including negative widths and heights.

## Model

| member | source | states |
|---|---|---|
| Geometry.Union | DrawingComparision/Services/PdfComparatorService.cs:133 | the union holds both rectangles, and each of its four edges is the same edge of one argument (so it is their bounding box) |
| Geometry.UnionIsLeast | DrawingComparision/Services/PdfComparatorService.cs:133 | any rectangle holding both arguments holds their union |
| Geometry.ISqrt | DrawingComparision/Services/PdfComparatorService.cs:151 | the truncated square root r of n satisfies r·r ≤ n < (r+1)·(r+1) |
| Geometry.ISqrtUnique | DrawingComparision/Services/PdfComparatorService.cs:151 | that characterisation determines the root uniquely |
| Geometry.Distance | DrawingComparision/Services/PdfComparatorService.cs:147-152 | the gap is the floor of the Euclidean length of the axis gaps (d² ≤ dx²+dy² < (d+1)²) and is never negative |
| Geometry.DistanceSymmetric | DrawingComparision/Services/PdfComparatorService.cs:147-152 | the gap does not depend on argument order |
| Geometry.DistanceBelowIff | DrawingComparision/Services/PdfComparatorService.cs:131 | `Distance(a, b) < m` holds iff m > 0 and dx²+dy² < m², so no floats are needed and nothing merges when m ≤ 0 |
| Geometry.DistanceZeroIff | DrawingComparision/Services/PdfComparatorService.cs:149-151 | the gap is 0 iff the rectangles overlap or touch on both axes |
| Geometry.DistanceOneAxis | DrawingComparision/Services/PdfComparatorService.cs:149-151 | when one axis's ranges meet, the gap equals the other axis's gap in full |
| Geometry.DistanceBounds | DrawingComparision/Services/PdfComparatorService.cs:149-151 | max(dx, dy) ≤ gap ≤ dx + dy |
| Geometry.DistanceShrinks | DrawingComparision/Services/PdfComparatorService.cs:131-133 | growing the cluster never increases its gap to a marker |
| Geometry.Pad | DrawingComparision/Services/PdfComparatorService.cs:154-161 | left/top become max(0, edge − p); width and height grow by 2p even when clamped, so a clamped right (bottom) edge moves out by p + (p − left) |
| Geometry.PadContains | DrawingComparision/Services/PdfComparatorService.cs:154-161 | padding by p ≥ 0 keeps the whole of a rectangle in the non-negative quadrant |
| Imaging.ColorDiff | DrawingComparision/Services/PdfComparatorService.cs:91-94 | the channel difference is between 0 and 765, and is 0 exactly for equal colours |
| Detection.RowMarkersSound | DrawingComparision/Services/PdfComparatorService.cs:86-98 | every marker of a row's first n columns is the 2×2 marker of a differing pixel of that row |
| Detection.RowMarkersComplete | DrawingComparision/Services/PdfComparatorService.cs:86-98 | every differing pixel among a row's first n columns has its marker in the row's list |
| Detection.RowMarkersOrdered | DrawingComparision/Services/PdfComparatorService.cs:86-99 | a row's markers run strictly left to right |
| Detection.RowMarkersSpec | DrawingComparision/Services/PdfComparatorService.cs:86-99 | one row yields a 2×2 marker for exactly the differing pixels among its first n columns, strictly left to right |
| Detection.MarkersSpec | DrawingComparision/Services/PdfComparatorService.cs:84-101 | the scanned rows yield a 2×2 in-bounds marker for exactly the differing pixels, in strict row-major order |
| Detection.DetectDifferenceAreas | DrawingComparision/Services/PdfComparatorService.cs:80-104 | fails iff the first image has a pixel outside the second; otherwise the result is exactly the markers of pixels with diff > threshold, in strict row-major order, and empty when an image is compared with itself at threshold ≥ 0 |
| Detection.DiffMarkersExact | DrawingComparision/Services/PdfComparatorService.cs:84-101 | soundness and completeness: a rectangle is a marker iff it is the 2×2 marker of an in-bounds pixel whose diff exceeds the threshold |
| Detection.MarkersDistinct | DrawingComparision/Services/PdfComparatorService.cs:84-98 | no pixel yields two markers |
| Detection.SelfComparisonEmpty | DrawingComparision/Services/PdfComparatorService.cs:91-98 | an image compared with itself yields no marker for any threshold ≥ 0 |
| Detection.ThresholdMonotone | DrawingComparision/Services/PdfComparatorService.cs:91-98 | the markers at a larger threshold are a subsequence of those at a smaller one, so never more |
| Detection.RowMonotone | DrawingComparision/Services/PdfComparatorService.cs:86-99 | the same subsequence property for one row |
| Detection.GridMonotone | DrawingComparision/Services/PdfComparatorService.cs:84-101 | the same subsequence property for the first rows |
| Detection.DiagonalMarkersApart | DrawingComparision/Services/PdfComparatorService.cs:147-152 | the markers of pixels (0,0) and (8,8) have gap exactly 8 (axis gaps of 6 each), which is not below 5 |
| Clustering.MarkVisitedCount | DrawingComparision/Services/PdfComparatorService.cs:134 | each merge flips one unvisited flag, lowering the unvisited count by one (the do-while's termination measure) |
| Clustering.WithinClosedBoxesGrow | DrawingComparision/Services/PdfComparatorService.cs:131-134 | a union with a free marker whose gap is below mergeDistance stays inside every closed box |
| Clustering.AbsorbedStayClose | DrawingComparision/Services/PdfComparatorService.cs:131-134 | an absorbed marker stays closer than mergeDistance to the cluster as the cluster grows |
| Clustering.SweepsDone | DrawingComparision/Services/PdfComparatorService.cs:126-137 | once a sweep merges nothing, the cluster is closed, and the absorbed markers are exactly the free ones closer than mergeDistance |
| Clustering.GrowCluster | DrawingComparision/Services/PdfComparatorService.cs:122-139 | terminates; only flips flags to visited; the cluster is the bounding box of the seed and the absorbed markers; it is closed under merging and lies inside every closed box, so it is the least closed box around the seed; a free marker is absorbed iff its gap to the final cluster is below mergeDistance; with mergeDistance ≤ 0 nothing merges |
| Clustering.GrowingStep | DrawingComparision/Services/PdfComparatorService.cs:131-135 | one merge keeps the cluster a bounding box of seed and absorbed markers, keeps absorbed markers closer than mergeDistance and inside every closed box, and lowers the unvisited count by one |
| Clustering.EdgesAttainedGrow | DrawingComparision/Services/PdfComparatorService.cs:133-134 | after a union, every edge of the cluster is still an edge of the seed or of an absorbed marker |
| Clustering.GrownIsBoundingBox | DrawingComparision/Services/PdfComparatorService.cs:119-139 | a grown cluster is the bounding box of its seed and the markers it absorbed |
| Clustering.BoundingBoxStable | DrawingComparision/Services/PdfComparatorService.cs:115-117 | a finished cluster keeps its members when later clusters take other markers |
| Clustering.SeedStep | DrawingComparision/Services/PdfComparatorService.cs:115-142 | seeding and growing one cluster preserves the assignment, bounding-box, seed-order, separation and singleton properties |
| Clustering.CloseMarkersShareCluster | DrawingComparision/Services/PdfComparatorService.cs:113-139 | two markers whose gap is below the merge distance always end up in the same cluster |
| Clustering.LeastStep | DrawingComparision/Services/PdfComparatorService.cs:115-142 | seeding and growing one cluster keeps each earlier cluster the least closed box over its free markers, and makes the new cluster one too |
| Clustering.PassSkip | DrawingComparision/Services/PdfComparatorService.cs:117 | skipping an already visited marker keeps every property of the pass |
| Clustering.MembersStep | DrawingComparision/Services/PdfComparatorService.cs:122-141 | after seeding and growing a cluster, every non-seed member of every cluster is closer than mergeDistance to its cluster |
| Clustering.PassStep | DrawingComparision/Services/PdfComparatorService.cs:115-142 | seeding and growing one cluster keeps every property of the pass |
| Clustering.PassDone | DrawingComparision/Services/PdfComparatorService.cs:107-145 | after the last seed the clusters, owners and seeds form a `Grouping` of the markers: owners, bounding boxes, seed order, least closed boxes, exact membership among free markers, separation and shared clusters |
| Clustering.GroupingRegions | DrawingComparision/Services/PdfComparatorService.cs:107-145 | a grouping has no regions iff there are no markers, never more regions than markers, and one padded region per marker when mergeDistance ≤ 0 |
| Clustering.GroupRectangles | DrawingComparision/Services/PdfComparatorService.cs:107-145 | `Grouping`: empty in, empty out; otherwise 1..n regions, each its cluster padded by 10; every marker has one owning cluster, the bounding box of its members; cluster k is seeded by its first member and earlier markers belong to earlier clusters; cluster k is the least closed box around its seed over the markers not taken by clusters 0..k-1, and among those it owns exactly its seed and the markers closer than mergeDistance to it; markers whose gap is below mergeDistance share a cluster; with mergeDistance ≤ 0 each marker is padded on its own |
| Comparator.ClusterInQuadrant | DrawingComparision/Services/PdfComparatorService.cs:141 | a cluster of markers with non-negative anchors has non-negative left and top, so padding covers it |
| Comparator.RegionsCoverMarkers | DrawingComparision/Services/PdfComparatorService.cs:58-59 | every marker lies inside the padded region of its cluster, and every padded region holds at least one marker |
| Comparator.CompareRegions | DrawingComparision/Services/PdfComparatorService.cs:44-59 | for equal-size images, with defaults 25 and 15: the regions are the `Grouping` of exactly the difference markers at clusterDistance; no more regions than markers; no regions iff no markers; none for an image against itself; every differing pixel's marker lies inside some region and every region holds some marker |
| Comparator.DistantPairClusters | DrawingComparision/Services/PdfComparatorService.cs:113-139 | for two markers whose gap is at least mergeDistance, the clusters are the two markers themselves |
| Comparator.DistantPairGrouping | DrawingComparision/Services/PdfComparatorService.cs:107-145 | grouping two markers whose gap is at least mergeDistance gives each marker padded on its own |
| Comparator.DiagonalMarkersStaySeparate | DrawingComparision/Services/PdfComparatorService.cs:107-145 | grouping the markers of pixels (0,0) and (8,8) at merge distance 5 gives exactly two regions, each a marker padded by 10 |

## Left out

- `ExtractPdfPageAsBitmap` (PdfComparatorService.cs lines 9-28) is left out: it decodes and rasterises the PDF through the PdfiumViewer library.
- `ResizeToSameSize` (lines 31-41), and the unequal-size branch of `CompareAndHighlightImproved` (lines 49-56), are left out. They use GDI+ bicubic interpolation, which is floating point and external. `Comparator.CompareRegions` therefore requires the two images to have equal sizes.
- The null-argument check (lines 46-47) is left out because the model's types cannot be null.
- The ellipse drawing and the output bitmap (lines 61-76) are left out. They are presentation only.
- `PdfCompareController.cs` is not part of this model. It covers HTTP form handling, temporary files and PNG encoding.
- The alpha channel is not modelled. The comparison ignores it.
- Geometry.Distance: does not model C# 32-bit wrap-around. Coordinates are unbounded integers, so `dx*dx + dy*dy` cannot overflow. In C# the sum exceeds 2^31 − 1 once dx² + dy² reaches 2^31: one axis gap of 46341 is enough, and so are two gaps of 32768 each. `X + Width` can overflow too. All of these need images far wider than any rendered page.
- Geometry.ISqrt: is taken to equal `(int)Math.Sqrt(n)` for every n an `int` can hold. For such n the double square root is exact enough that truncation gives the floor. That equality is a modelling assumption, not a proof, because the model has no floating point.
- Detection.DetectDifferenceAreas: the out-of-range exception is reported before the scan starts, not at the first pixel it reaches. The outcome is the same, since the exception discards the partial list.
- Clustering.GroupRectangles: the per-cluster owner, seed and pre-padding rectangle are ghost outputs; the source keeps only the visited flags. The order in which a cluster absorbed its markers is not recorded; the contract states the finished cluster and its members instead.
- Clustering.GroupRectangles: no claim that output regions are pairwise disjoint, because the code does not guarantee it.
- Monotonicity in the cluster distance (a larger merge distance never yields more regions) is not proved. With bounding-box merging in seed order it is not evidently true.
