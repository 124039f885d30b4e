# fluorescence: primary colours and a box blur, modelled in Dafny

fluorescence extracts the primary colours of an image and blurs pixel
buffers. This project models three pieces of it and proves what they compute.

- **Octree quantizer** (`Octree`, src/color/octree.rs). Every pixel goes
  down a 16-way tree along the bits of its r, g, b and a channels, from the
  most significant bit. Level 7 holds leaves that accumulate channel sums
  and a pixel count. While there are more leaves than `leaf_limit`, the
  deepest internal node is folded into a leaf. At the end, each leaf's
  averaged colour is written as a `#rrggbbaa` key into a `BTreeMap`. The
  keys are parsed back, ranked by pixel count with a stable sort, and cut
  to `primary_color_count`.
- **K-means quantizer** (`Kmeans`, crates/src/color/kmeans.rs). Each round:
  - assigns every pixel to its nearest centroid (the first one on ties);
  - moves each centroid to the truncated mean of its cluster, or to opaque
    black when the cluster is empty;
  - stops early once every new centroid is within `min_distance` of the
    old one, in which case it returns the old centroids.
- **`fast_blur`** (crates/src/blur/gaussian.rs). It blurs a rectangle of a
  packed `u32` RGBA buffer in place, row by row and left to right. Each
  pixel becomes the truncated mean of the 3×3 neighbourhood it can read,
  with alpha forced to 0xFF. Neighbours above and to the left have already
  been blurred when they are read.

## Files and modules

- `colors.dfy`: the shared value types and accumulators. It holds `Wrappers`
  (Option, Result), `Sequences` (prefix facts) and `Colors` (`u8`,
  `RgbaColor`, `Image`, channel totals, the truncated mean).
- `hexkey.dfy` (`HexKey`): the `#rrggbbaa` key, its parse, and the ordering
  of the keys.
- `ranking.dfy` (`Ranking`): the record, kept as an association list sorted
  by key; the stable sort by count; the cut.
- `octree_node.dfy` (`OctreeNodes`): the tree as a value. It covers slot
  choice, insertion, folding and the leaf list.
- `octree_stats.dfy` (`OctreeStats`): `colors_stats`.
- `registry.dfy` (`OctreeRegistry`): the per-level reduction buckets and
  the quantizer invariant.
- `octree.dfy` (`OctreeQuantizer`): the `Octree` class. The leaf counter
  and the buckets are its fields, next to the tree.
- `kmeans.dfy` (`KMeans`): distance, assignment, update, settle check and
  the round loop.
- `blur.dfy` (`Blur`): pixel packing, the kernel, the in-place traversal and
  `fast_blur` over an `array<u32>`.

The octree is a value (`datatype OctreeNode`), because each child `Box` is
owned by exactly one parent, so replacing a subtree is the same as updating
it in place. The reduction buckets hold the paths of internal nodes from
the root. Distances in k-means are compared squared. `sqrt` is monotone, so
the nearest centroid does not change. In exact arithmetic, `sqrt(d) > m` is the
same test as `d > floor(m * m)` for an integer `d` and `m >= 0`, so the
threshold becomes the integer `settleBound`. The blur traversal is stated for any pixel
function (`PixelFn`); `fast_blur` instantiates it with its kernel,
`Blurring`.

## Model

| member | source | states |
|---|---|---|
| Colors.MeanColorExact | crates/src/color/kmeans.rs:76-82 | when every channel sum is at most 255 per pixel, each `as u8` channel equals the exact truncated mean |
| Colors.SumColorsSnoc | crates/src/color/kmeans.rs:63-74 | folding one more pixel adds its channels to the sums and one to the count |
| HexKey.FormatKey | src/color/octree.rs:164 | the key is nine characters starting with `#` |
| HexKey.FormatByteRoundTrip | src/color/octree.rs:46-49 | `from_str_radix(.., 16)` of a byte's two hex digits gives back the byte |
| HexKey.KeyRoundTrip | src/color/octree.rs:46-49 | parsing a formatted key gives back the colour it was formatted from |
| HexKey.FormatKeyInjective | src/color/octree.rs:164-165 | two colours share a key exactly when they are equal |
| HexKey.StrLessTotal | src/color/octree.rs:40 | the key order of the map is total |
| HexKey.StrLessTransitive | src/color/octree.rs:40 | the key order of the map is transitive |
| HexKey.StrLessAppend | src/color/octree.rs:40 | comparing equal-length concatenations compares the first parts, then the second |
| HexKey.FormatByteOrder | src/color/octree.rs:164 | two-digit lower-case hex orders exactly as the bytes do |
| HexKey.KeyOrder | src/color/octree.rs:40-44 | the map iterates keys in the lexicographic (r, g, b, a) order of their colours |
| Ranking.UpsertContents | src/color/octree.rs:165 | `entry(key).or_insert(0) += n` adds `n` under `key`, changes no other key, adds `key` to the keys and `n` to the total |
| Ranking.UpsertAscending | src/color/octree.rs:165 | the record stays sorted by key after an upsert |
| Ranking.ParseEntries | src/color/octree.rs:43-52 | one parsed entry per record entry, in order, holding the entry's parsed colour and its count |
| Ranking.SortByCountSpec | src/color/octree.rs:54 | the sort by count is a permutation, with counts descending |
| Ranking.SortByCountStable | src/color/octree.rs:54 | entries with equal counts keep their ascending-colour order (a stable sort) |
| Ranking.TakeColors | src/color/octree.rs:55-59 | `take(n)` yields the first `min(n, len)` colours |
| Ranking.ParsedColorsAscending | src/color/octree.rs:43-52 | a record with formatted, ascending keys parses into colours in ascending order |
| Ranking.RankSpec | src/color/octree.rs:43-59 | the result is the first `min(n, len)` colours of a stable descending-count permutation of the record |
| OctreeNodes.ChildIndex | src/color/octree.rs:105-109 | the child slot is below 16 |
| OctreeNodes.ShiftedIndexIsChildIndex | src/color/octree.rs:105-109 | the shift-and-mask slot equals bit `7 - level` of r, g, b, a packed r-first |
| OctreeNodes.Route | src/color/octree.rs:97-119 | a colour's route from `level` has one slot per level down to 7 |
| OctreeNodes.SameLeafIffHighBitsAgree | src/color/octree.rs:105-109 | two colours reach the same leaf exactly when their channels agree on the top seven bits |
| OctreeNodes.NewNodeShaped | src/color/octree.rs:80-95 | `OctreeNode::new` is a well-formed empty node, a leaf exactly at level 7 |
| OctreeNodes.NewNodeLeaves | src/color/octree.rs:80-85 | a new node is one leaf at level 7 and none above, with zero sums |
| OctreeNodes.AddColor | src/color/octree.rs:97-119 | an insertion creates at most one leaf, none below a leaf, and keeps the node's kind |
| OctreeNodes.AddColorValid | src/color/octree.rs:97-119 | insertion keeps a tree valid and makes a freshly created node valid |
| OctreeNodes.AddColorLeaves | src/color/octree.rs:97-119 | the leaf count grows by the leaves created, and the leaves' totals gain exactly the colour |
| OctreeNodes.AddColorFrame | src/color/octree.rs:111-117 | nodes off the colour's route are unchanged |
| OctreeNodes.AddColorInternal | src/color/octree.rs:111-113 | the internal nodes after an insertion are the old ones plus the ones it reports created, which did not exist before |
| OctreeNodes.AddColorStaircase | src/color/octree.rs:111-113 | the created internal nodes lie on one route, one per level, shallowest first |
| OctreeNodes.ReplaceAtLeaves | src/color/octree.rs:132-154 | replacing a subtree swaps its leaves, and their count and totals, for the new ones |
| OctreeNodes.ReplaceAtValid | src/color/octree.rs:132-154 | replacing a subtree with a valid one of the same depth keeps the tree valid |
| OctreeNodes.FoldSpec | src/color/octree.rs:134-154 | folding a node whose children are leaves gives one valid leaf holding their summed totals; they were one leaf per occupied slot |
| OctreeNodes.ValidLeaves | src/color/octree.rs:157-162 | every leaf of a valid tree has at least one pixel and bounded sums, so the division in `colors_stats` is defined |
| OctreeStats.CollectStatsSpec | src/color/octree.rs:157-173 | visiting leaves adds each leaf's pixel count under its colour's key and changes nothing else; keys stay sorted and the total grows by the leaves' pixels |
| OctreeStats.CollectStatsAppend | src/color/octree.rs:167-171 | visiting two runs of leaves is visiting the first, then the second |
| OctreeStats.RecordOfLeaves | src/color/octree.rs:40-41 | the record built from an empty map has sorted, formatted keys whose counts sum to the leaves' pixels |
| OctreeStats.LeafStats | src/color/octree.rs:158-165 | a leaf upserts its own count under the key of its averaged colour |
| OctreeStats.SlotStats | src/color/octree.rs:167-171 | one more child slot visits that child's leaves; an empty slot visits nothing |
| OctreeStats.ColorsStats | src/color/octree.rs:157-173 | the recursive method leaves the record as visiting the tree's leaves in slot order makes it |
| OctreeRegistry.ScanLevel | src/color/octree.rs:122-130 | the scan ends at or below its start |
| OctreeRegistry.ScanLevelSpec | src/color/octree.rs:122-130 | the scan settles on the deepest non-empty bucket from level 6 down to 1, else on level 0 |
| OctreeRegistry.RegisteredTarget | src/color/octree.rs:121-132 | with exact buckets, a node to fold exists exactly when the root is internal, sits at the depth of its bucket, and has only leaf children |
| OctreeRegistry.PoppedRegistered | src/color/octree.rs:132-154 | folding the picked node to a leaf and taking it off its bucket keeps the buckets exact |
| OctreeRegistry.RootRegistered | src/color/octree.rs:29 | a fresh tree's only internal node, the root, is listed at level 0 |
| OctreeRegistry.RegisterAll | src/color/octree.rs:111-113 | listing the pending created nodes makes the buckets exact |
| OctreeRegistry.RegisterNodes | src/color/octree.rs:111-113 | pushes the created internal nodes, in order, onto the buckets of their depths |
| OctreeRegistry.AddColorConsistent | src/color/octree.rs:32 | inserting a pixel and listing the nodes it created keeps the quantizer invariant, with the pixel appended |
| OctreeRegistry.ReduceConsistent | src/color/octree.rs:121-155 | folding the picked node keeps the invariant: the counter loses one leaf per occupied slot and gains one, the pixels are unchanged, and the buckets shrink |
| OctreeRegistry.TakeChildren | src/color/octree.rs:143-152 | the slot loop empties every slot into the node, which ends up the fold of the node, and lowers the counter once per occupied slot |
| OctreeQuantizer.Octree.constructor | src/color/octree.rs:18-24 | stores the image, limit and count, with a fresh tree and buckets |
| OctreeQuantizer.Octree.Reset | src/color/octree.rs:29 | a fresh root, zero leaves and the root listed, satisfying the invariant |
| OctreeQuantizer.Octree.AddColor | src/color/octree.rs:32 | the tree, counter and buckets become those of the inserted pixel, keeping the invariant |
| OctreeQuantizer.Octree.ReduceTree | src/color/octree.rs:121-155 | fails exactly when the root is a leaf; otherwise replaces the picked node by its fold, adjusts the counter, and pops the bucket |
| OctreeQuantizer.Octree.ReduceToLimit | src/color/octree.rs:34-37 | ends with at most `leaf_limit` leaves, or fails only with one leaf under a limit of 0 |
| OctreeQuantizer.Octree.RankLeaves | src/color/octree.rs:40-59 | returns the ranked, cut colours of the tree's leaf record |
| OctreeQuantizer.Octree.GetPrimaryColors | src/color/octree.rs:28-60 | succeeds whenever `leaf_limit > 0`; the tree is valid, its leaves hold exactly the image's pixel totals, there are at most `leaf_limit` of them, and the result is their ranked colours |
| OctreeQuantizer.FreshRouteLeaf | src/color/octree.rs:80-85 | a colour inserted into a fresh internal node creates exactly one leaf |
| OctreeQuantizer.BlackWhiteSlots | src/color/octree.rs:105-109 | black goes to slot 0 and white to slot 15 below the root |
| OctreeQuantizer.EmptyRegistryTarget | src/color/octree.rs:76-132 | with the buckets as allocated, the scan ends at level 0 and there is nothing to fold |
| OctreeQuantizer.UnfilledBucketsPanic | src/color/octree.rs:74-77 | buckets that are never filled make the scan end at level 0 with nothing to unwrap; black then white leave two leaves |
| KMeans.Dist2Symmetric | crates/src/color/kmeans.rs:113-118 | the distance is symmetric |
| KMeans.Dist2ZeroIff | crates/src/color/kmeans.rs:113-118 | the distance is zero exactly for equal colours |
| KMeans.Dist2Bound | crates/src/color/kmeans.rs:113-118 | the squared distance is at most 4 · 255², so it fits the source's `i32` |
| KMeans.Closest | crates/src/color/kmeans.rs:49-55 | the chosen centroid is nearest, and strictly nearer than every earlier one (`min_by` keeps the first minimum) |
| KMeans.ClosestUnique | crates/src/color/kmeans.rs:49-55 | any index that is nearest and strictly nearer than all earlier ones is the chosen one |
| KMeans.ClosestCenter | crates/src/color/kmeans.rs:49-55 | the scan over the centroids returns the chosen index |
| KMeans.EmptyClusters | crates/src/color/kmeans.rs:44-46 | `clear` leaves one empty cluster per centroid |
| KMeans.Assignment | crates/src/color/kmeans.rs:44-58 | one cluster per centroid |
| KMeans.AssignmentMembers | crates/src/color/kmeans.rs:48-58 | cluster `k` holds, in pixel order, exactly the pixels whose nearest centroid is `k` |
| KMeans.AssignmentSize | crates/src/color/kmeans.rs:48-58 | the clusters together hold as many pixels as the image |
| KMeans.AssignmentClosest | crates/src/color/kmeans.rs:48-58 | every pixel in cluster `k` has `k` as its nearest centroid |
| KMeans.AssignmentCovers | crates/src/color/kmeans.rs:48-58 | every pixel lands in the cluster of its nearest centroid |
| KMeans.Assign | crates/src/color/kmeans.rs:44-58 | the loop of pushes builds the assignment |
| KMeans.NewCentroids | crates/src/color/kmeans.rs:60-92 | one new centroid per cluster, in order: centroid `k` is the update of cluster `k` |
| KMeans.UpdateCentroidMean | crates/src/color/kmeans.rs:62-90 | each channel of a non-empty cluster's centroid is the truncated mean of the cluster's channel, and lies within the cluster's range |
| KMeans.SettledAll | crates/src/color/kmeans.rs:94-100 | settled exactly when every zipped pair of centroids is within the threshold |
| KMeans.IsSettled | crates/src/color/kmeans.rs:94-100 | the loop with `break` answers exactly the settle predicate |
| KMeans.Step | crates/src/color/kmeans.rs:44-92 | a round keeps the number of centroids |
| KMeans.StepAt | crates/src/color/kmeans.rs:44-92 | after a round, centroid `k` is the update of the pixels whose nearest centroid was `k`, and opaque black when there are none |
| KMeans.StepMean | crates/src/color/kmeans.rs:60-90 | each channel of a round's centroid `k` is the truncated mean of that channel over the pixels nearest to `k` |
| KMeans.IterateLength | crates/src/color/kmeans.rs:41-107 | rounds that keep the number of centroids keep it over the whole loop |
| KMeans.IterateOutcome | crates/src/color/kmeans.rs:41-107 | the loop returns the initial centroids or the outcome of some round |
| KMeans.RefineLength | crates/src/color/kmeans.rs:39-109 | a successful run returns as many centroids as it started with |
| KMeans.RefineUpdated | crates/src/color/kmeans.rs:39-109 | a successful run returns the initial centroids or the result of a round |
| KMeans.RefineFixedPoint | crates/src/color/kmeans.rs:94-104 | centroids that a round leaves unchanged are returned as they are |
| KMeans.RefineRound | crates/src/color/kmeans.rs:41-106 | one round: stop with the old centroids if settled, otherwise continue from the new ones |
| KMeans.GetPrimaryColors | crates/src/color/kmeans.rs:27-110 | the method returns the refinement; it fails exactly when there are rounds, no centroids and some pixels; zero rounds return the initial centroids |
| Blur.Pack | crates/src/blur/gaussian.rs:30 | packing bytes puts them in the red, green and blue bytes with alpha 0xFF |
| Blur.NeighbourInBuffer | crates/src/blur/gaussian.rs:17-18 | every neighbour the condition admits lies inside a buffer holding row `y + 1` |
| Blur.CountShape | crates/src/blur/gaussian.rs:12-17 | the number of neighbours read is columns × rows, between 2 and 9 |
| Blur.GatherCount | crates/src/blur/gaussian.rs:12-23 | the kernel's count is the number of neighbours the condition admits |
| Blur.GatherBetween | crates/src/blur/gaussian.rs:17-22 | when every neighbour read has a channel in [lo, hi], the channel's sum is between lo and hi times the count |
| Blur.EdgeCount | crates/src/blur/gaussian.rs:12-27 | at `x == width` the kernel reads the rows' left column only; further right, or with width zero, it reads nothing, so the mean divides by zero |
| Blur.BlendMean | crates/src/blur/gaussian.rs:27-30 | with byte-valued sums, the `& 0xFF` mask loses nothing: each channel is the exact truncated mean, and alpha is 0xFF |
| Blur.BlurAtMean | crates/src/blur/gaussian.rs:7-30 | a blurred pixel is opaque; each channel is the truncated mean over the 2 to 9 neighbours read |
| Blur.BlurAtBetween | crates/src/blur/gaussian.rs:7-30 | a blurred channel lies within the range of the neighbours' channel values |
| Blur.BlurringAt | crates/src/blur/gaussian.rs:7-30 | where the kernel can be read, the pixel function is the blurred pixel |
| Blur.Visit | crates/src/blur/gaussian.rs:30 | writing one pixel keeps the buffer length |
| Blur.BlurRow | crates/src/blur/gaussian.rs:6-31 | visiting part of a row keeps the buffer length |
| Blur.BlurRows | crates/src/blur/gaussian.rs:5-32 | visiting rows of the rectangle keeps the buffer length |
| Blur.Before | crates/src/blur/gaussian.rs:5-32 | the buffer met on reaching (x, y) keeps the length and holds row `y + 1` |
| Blur.VisitAt | crates/src/blur/gaussian.rs:30 | a visit writes index `y * width + x` and no other |
| Blur.BlurRowFrame | crates/src/blur/gaussian.rs:6-31 | a row pass leaves every index outside its pixels unchanged |
| Blur.BlurRowKeep | crates/src/blur/gaussian.rs:6-31 | later pixels of the row leave earlier indices unchanged |
| Blur.BlurRowsFrame | crates/src/blur/gaussian.rs:5-32 | the pass leaves every pixel outside the rectangle unchanged |
| Blur.BlurRowsKeep | crates/src/blur/gaussian.rs:5-32 | later rows leave the indices of earlier rows unchanged |
| Blur.RowCell | crates/src/blur/gaussian.rs:6-31 | a pixel keeps the value written on reaching it through to the end of its row |
| Blur.BlurCell | crates/src/blur/gaussian.rs:5-32 | every pixel of the rectangle ends up holding its kernel applied to the buffer as the pass met it |
| Blur.BlurSeen | crates/src/blur/gaussian.rs:5-32 | on reaching (x, y), earlier pixels of the rectangle already hold their final values and all others are original |
| Blur.SeenDone | crates/src/blur/gaussian.rs:5-32 | on reaching (x, y), every index before it in row-major order already holds its value at the end of the pass |
| Blur.SeenPending | crates/src/blur/gaussian.rs:5-32 | on reaching (x, y), every index from it on still holds its original value |
| Blur.BlurredOpaque | crates/src/blur/gaussian.rs:30 | every pixel of the rectangle ends up with alpha 0xFF |
| Blur.FastBlur | crates/src/blur/gaussian.rs:1-33 | the buffer ends up as the row-major in-place pass of the kernel over the rectangle |
| Blur.BlurRowInPlace | crates/src/blur/gaussian.rs:6-31 | the inner loop leaves the buffer as the row pass over `x0..x1` |
| Blur.BlurPixelInPlace | crates/src/blur/gaussian.rs:30 | the write replaces pixel (x, y) by its blurred value |
| Blur.BlurPixel | crates/src/blur/gaussian.rs:7-29 | the computed pixel is the blurred value of the current buffer |
| Blur.KernelSums | crates/src/blur/gaussian.rs:7-25 | the two kernel loops compute the sums and count over the neighbours the condition admits |

## Left out

- The locks. `LEAF_COUNT` and `TO_REDUCE` are global `spin::Mutex` values.
  `get_primary_colors` holds `LEAF_COUNT` while it calls `reduce_tree`,
  which locks it again and would spin forever. The model has no locks: the
  counter and the buckets are fields of the quantizer.
- `LEAF_COUNT` is global and never reset between calls. The model starts
  every call from zero leaves.
- `TO_REDUCE` holds copies of nodes, not references into the tree, so even
  filled buckets would fold copies. The model lists nodes by their path
  from the root (see Findings).
- OctreeQuantizer.Octree.ReduceTree: the source leaves the folded node in
  its bucket (`last_mut`, no pop). The model pops it. With the node left in
  place, the next call would fold the same node again and reset its sums.
- Unreachable source branch: the `if level == 0 { return; }` inside the
  scan loop is never taken.
- Channel sums and counts are unbounded `nat`s. The source keeps them in
  `u32` (octree sums and the record's counts, k-means sums), which wraps
  beyond 16843009 pixels of value 255; the model does not capture that
  wrap-around. Blur sums stay below
  9 · 255 and are exact in both.
- KMeans.GetPrimaryColors: floating point is not modelled.
  - `min_distance` is given as the integer `settleBound`. A `NaN` threshold
    is not covered.
  - The threshold test is exact only in real arithmetic. The source
    compares an `f64` square root, which rounds: with `min_distance` equal
    to the `f64` value of `sqrt(3.0)` (1.7320508075688772) and squared
    distance 3, the source finds `sqrt(3.0)` not greater and counts the
    pair as settled, while `settleBound` 2 counts it as unsettled.
  - `partial_cmp` on square roots of distinct integers up to 260100 never
    ties and never fails, so integer comparison stands in for it.
- The random initial centroids of k-means are a parameter of
  `GetPrimaryColors`.
- Image decoding and file I/O, the `mediancut` and `popularity` quantizers,
  and the test harness are not part of this model.
- Blur.KernelSums: coordinates are unbounded integers. The source's
  `as i32` casts wrap for `x` or `width` above 2³¹ − 1, and that is not
  captured.
- Blur.FastBlur: the source has no `ny < height` check, so blurring the
  last row reads the row below the rectangle. The precondition `Fits`
  therefore asks for the whole row `y1` in the buffer, which is slightly
  more than the source reads when `x1 < width`. `Fits` also asks for
  `x1 <= width`, and `BlurRowInPlace`, `BlurPixelInPlace` and `BlurPixel`
  ask for `x < width`. The source does not check the column bound, and
  the model does not capture what happens past it (see `EdgeCount`):
  - with `x1 == width + 1` the source also blurs the column `x == width`,
    which reads the left neighbours only (2 or 3 of them) and writes the
    result to index `y * width + width`, the first pixel of row `y + 1`;
  - with `x1 >= width + 2`, or `width == 0` and `x0 < x1`, a pixel reads
    no neighbour, and `sum_r / count` panics on division by zero.
- Bit operations are written arithmetically:
  - the channel extraction (`>>` and `& 0xFF`) in `Red`, `Green` and `Blue`;
  - the packing (`|` and `<<`) in `Pack`;
  - the octree slot in `ChildIndex`, proved equal to the shift form
    `ShiftedIndex`.

## Findings

| source | as written | input that shows it | evidently intended | confidence | as-written member | corrected member |
|---|---|---|---|---|---|---|
| src/color/octree.rs:74-132 | `TO_REDUCE` is created as eight empty buckets and nothing ever pushes onto it. `reduce_tree` therefore scans down to level 0 and `last_mut().unwrap()` panics on its first call. | a black pixel then a white pixel with `leaf_limit` 1: the two colours part at the root, so there are two leaves and the loop calls `reduce_tree` | every internal node is listed in the bucket of its depth when it is created; `reduce_tree` folds the last node of the deepest non-empty bucket and takes it off | not executed | OctreeQuantizer.UnfilledBucketsPanic | OctreeQuantizer.Octree.ReduceTree |
