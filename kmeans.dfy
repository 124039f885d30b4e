/**
 * The k-means quantizer (`Kmeans` in crates/src/color/kmeans.rs): every
 * round assigns each pixel to its nearest centroid, moves every centroid
 * to the mean of its cluster, and stops early once no centroid has moved
 * farther than `min_distance`.
 *
 * The initial centroids, drawn at random by the source, are a parameter.
 * Distances are compared squared: `sqrt` is monotone, so the nearest
 * centroid is the same, and `sqrt(d) > m` is `d > floor(m * m)` for an
 * integer `d` and a non-negative `m`.
 */
module KMeans {
  import opened Wrappers
  import opened Sequences
  import opened Colors

  /**
   * The quantizer's settings. `settleBound` is `min_distance` on the
   * squared scale: `floor(m * m)` for a threshold `m >= 0`, any negative
   * number for a negative threshold (which no distance stays within).
   */
  datatype Kmeans = Kmeans(image: Image, initCentroid: nat, iteration: nat, settleBound: int)

  function Square(d: int): nat
  {
    d * d
  }

  /** `calc_dist` before the square root: the squared distance over r, g, b and a. */
  function Dist2(c1: RgbaColor, c2: RgbaColor): nat
  {
    Square(c1.r as int - c2.r as int) + Square(c1.g as int - c2.g as int)
    + Square(c1.b as int - c2.b as int) + Square(c1.a as int - c2.a as int)
  }

  /** The distance does not depend on the order of its arguments. */
  lemma Dist2Symmetric(c1: RgbaColor, c2: RgbaColor)
    ensures Dist2(c1, c2) == Dist2(c2, c1)
  {
    assert Square(c1.r as int - c2.r as int) == Square(c2.r as int - c1.r as int);
    assert Square(c1.g as int - c2.g as int) == Square(c2.g as int - c1.g as int);
    assert Square(c1.b as int - c2.b as int) == Square(c2.b as int - c1.b as int);
    assert Square(c1.a as int - c2.a as int) == Square(c2.a as int - c1.a as int);
  }

  /** A colour is at distance zero from exactly itself. */
  lemma Dist2ZeroIff(c1: RgbaColor, c2: RgbaColor)
    ensures Dist2(c1, c2) == 0 <==> c1 == c2
  {
    if Dist2(c1, c2) == 0 {
      SquareZero(c1.r as int - c2.r as int);
      SquareZero(c1.g as int - c2.g as int);
      SquareZero(c1.b as int - c2.b as int);
      SquareZero(c1.a as int - c2.a as int);
    }
  }

  lemma SquareZero(d: int)
    requires Square(d) == 0
    ensures d == 0
  {
    if d != 0 {
      assert d * d > 0 by {
        if d > 0 { MulPositive(d, d); } else { MulPositive(-d, -d); }
      }
    }
  }

  lemma MulPositive(a: int, b: int)
    requires a > 0 && b > 0
    ensures a * b > 0
  {
  }

  /** No two colours are farther apart than four full channel ranges, squared. */
  lemma Dist2Bound(c1: RgbaColor, c2: RgbaColor)
    ensures Dist2(c1, c2) <= 4 * 255 * 255
  {
    SquareBound(c1.r as int - c2.r as int);
    SquareBound(c1.g as int - c2.g as int);
    SquareBound(c1.b as int - c2.b as int);
    SquareBound(c1.a as int - c2.a as int);
  }

  lemma SquareBound(d: int)
    requires -255 <= d <= 255
    ensures Square(d) <= 255 * 255
  {
    var m: nat := if d < 0 then -d else d;
    assert Square(d) == m * m;
    MulMono(m, 255);
  }

  lemma MulMono(m: nat, k: nat)
    requires m <= k
    ensures m * m <= k * k
  {
    assert m * m <= m * k;
    assert m * k <= k * k;
  }

  /**
   * The index `min_by` picks from the centroids' distances to `p`: the
   * running minimum gives way only to a strictly smaller distance, so of
   * several equally near centroids the first wins.
   */
  function Closest(cs: seq<RgbaColor>, p: RgbaColor): (i: nat)
    requires |cs| > 0
    ensures i < |cs|
    ensures forall j :: 0 <= j < |cs| ==> Dist2(cs[i], p) <= Dist2(cs[j], p)
    ensures forall j :: 0 <= j < i ==> Dist2(cs[i], p) < Dist2(cs[j], p)
  {
    if |cs| == 1 then 0
    else
      var i := Closest(cs[..|cs| - 1], p);
      if Dist2(cs[|cs| - 1], p) < Dist2(cs[i], p) then |cs| - 1 else i
  }

  /** The first nearest centroid is the only index with the two properties `Closest` promises. */
  lemma ClosestUnique(cs: seq<RgbaColor>, p: RgbaColor, k: nat)
    requires k < |cs|
    requires forall j :: 0 <= j < |cs| ==> Dist2(cs[k], p) <= Dist2(cs[j], p)
    requires forall j :: 0 <= j < k ==> Dist2(cs[k], p) < Dist2(cs[j], p)
    ensures k == Closest(cs, p)
  {
  }

  /** The `min_by` scan over `centroid.iter().enumerate()`. */
  method ClosestCenter(cs: seq<RgbaColor>, p: RgbaColor) returns (idx: nat)
    requires |cs| > 0
    ensures idx == Closest(cs, p)
  {
    idx := 0;
    var best := Dist2(cs[0], p);
    assert cs[..1] == [cs[0]];
    for i := 1 to |cs|
      invariant idx < i && idx == Closest(cs[..i], p) && best == Dist2(cs[idx], p)
    {
      assert cs[..i + 1][..i] == cs[..i];
      var d := Dist2(cs[i], p);
      if d < best {
        idx, best := i, d;
      }
    }
    PrefixAll(cs);
  }

  /** The pixels, in image order, whose nearest centroid is the `k`-th. */
  function Members(cs: seq<RgbaColor>, pixels: seq<RgbaColor>, k: nat): seq<RgbaColor>
    requires |cs| > 0
  {
    if pixels == [] then []
    else
      var last := pixels[|pixels| - 1];
      Members(cs, pixels[..|pixels| - 1], k) + (if Closest(cs, last) == k then [last] else [])
  }

  /**
   * `center_cluster` after one assignment pass: every cluster cleared,
   * then each pixel in turn pushed onto the cluster of its nearest
   * centroid.
   */
  function Assignment(cs: seq<RgbaColor>, pixels: seq<RgbaColor>): (clusters: seq<seq<RgbaColor>>)
    requires |cs| > 0 || pixels == []
    ensures |clusters| == |cs|
  {
    if pixels == [] then EmptyClusters(|cs|)
    else
      var a, last := Assignment(cs, pixels[..|pixels| - 1]), pixels[|pixels| - 1];
      var c := Closest(cs, last);
      a[c := a[c] + [last]]
  }

  /** `n` empty clusters. */
  function EmptyClusters(n: nat): (ss: seq<seq<RgbaColor>>)
    ensures |ss| == n && forall k :: 0 <= k < n ==> ss[k] == []
  {
    if n == 0 then [] else EmptyClusters(n - 1) + [[]]
  }

  /** Cluster `k` is exactly the pixels, in image order, whose nearest centroid is the `k`-th. */
  lemma {:induction false} AssignmentMembers(cs: seq<RgbaColor>, pixels: seq<RgbaColor>, k: nat)
    requires k < |cs|
    ensures Assignment(cs, pixels)[k] == Members(cs, pixels, k)
  {
    if pixels != [] {
      AssignmentMembers(cs, pixels[..|pixels| - 1], k);
    }
  }

  /** The pixel count over all clusters. */
  function TotalSize(ss: seq<seq<RgbaColor>>): nat
  {
    if ss == [] then 0 else TotalSize(ss[..|ss| - 1]) + |ss[|ss| - 1]|
  }

  /**
   * The clusters partition the pixels: the cluster sizes add up to the
   * pixel count, each member of cluster `k` has centroid `k` nearest,
   * and each pixel is a member of its nearest centroid's cluster.
   */
  lemma {:induction false} AssignmentSize(cs: seq<RgbaColor>, pixels: seq<RgbaColor>)
    requires |cs| > 0
    ensures TotalSize(Assignment(cs, pixels)) == |pixels|
  {
    if pixels == [] {
      EmptySize(Assignment(cs, pixels));
    } else {
      var n := |pixels| - 1;
      AssignmentSize(cs, pixels[..n]);
      SizeUpdate(Assignment(cs, pixels[..n]), Closest(cs, pixels[n]), pixels[n]);
    }
  }

  /** Every member of cluster `k` has centroid `k` as its first nearest centroid. */
  lemma {:induction false} AssignmentClosest(cs: seq<RgbaColor>, pixels: seq<RgbaColor>, k: nat, q: RgbaColor)
    requires k < |cs| && q in Assignment(cs, pixels)[k]
    ensures Closest(cs, q) == k
  {
    var n := |pixels| - 1;
    if q !in Assignment(cs, pixels[..n])[k] {
      assert q == pixels[n];
    } else {
      AssignmentClosest(cs, pixels[..n], k, q);
    }
  }

  /** Every pixel lands in the cluster of its first nearest centroid. */
  lemma {:induction false} AssignmentCovers(cs: seq<RgbaColor>, pixels: seq<RgbaColor>, i: nat)
    requires |cs| > 0 && i < |pixels|
    ensures pixels[i] in Assignment(cs, pixels)[Closest(cs, pixels[i])]
  {
    var n := |pixels| - 1;
    if i < n {
      AssignmentCovers(cs, pixels[..n], i);
      assert pixels[..n][i] == pixels[i];
    }
  }

  lemma {:induction false} EmptySize(ss: seq<seq<RgbaColor>>)
    requires forall k :: 0 <= k < |ss| ==> ss[k] == []
    ensures TotalSize(ss) == 0
  {
    if ss != [] {
      EmptySize(ss[..|ss| - 1]);
    }
  }

  /** Appending to one cluster adds one to the total. */
  lemma {:induction false} SizeUpdate(ss: seq<seq<RgbaColor>>, c: nat, x: RgbaColor)
    requires c < |ss|
    ensures TotalSize(ss[c := ss[c] + [x]]) == TotalSize(ss) + 1
  {
    var ss' := ss[c := ss[c] + [x]];
    var n := |ss| - 1;
    if c == n {
      assert ss'[..n] == ss[..n];
    } else {
      assert ss'[..n] == ss[..n][c := ss[..n][c] + [x]];
      SizeUpdate(ss[..n], c, x);
    }
  }

  /**
   * The assignment pass of one round: every cluster is cleared, then
   * each pixel is pushed onto the cluster of its nearest centroid.
   */
  method Assign(cs: seq<RgbaColor>, pixels: seq<RgbaColor>) returns (clusters: seq<seq<RgbaColor>>)
    requires |cs| > 0 || pixels == []
    ensures clusters == Assignment(cs, pixels)
  {
    clusters := seq(|cs|, _ => []);
    if |cs| == 0 {
      return;
    }
    for i := 0 to |pixels|
      invariant clusters == Assignment(cs, pixels[..i])
    {
      var idx := ClosestCenter(cs, pixels[i]);
      assert pixels[..i + 1][..i] == pixels[..i];
      clusters := clusters[idx := clusters[idx] + [pixels[i]]];
    }
    PrefixAll(pixels);
  }

  /** The new centroid of one cluster: its truncated channel means, or opaque black when it is empty. */
  function UpdateCentroid(cluster: seq<RgbaColor>): RgbaColor
  {
    if |cluster| > 0 then
      SumColorsBounded(cluster);
      MeanColor(SumColors(cluster))
    else
      RgbaColor(0, 0, 0, 255)
  }

  /** The `map` over `center_cluster`: one new centroid per cluster, in order. */
  function NewCentroids(clusters: seq<seq<RgbaColor>>): (cs: seq<RgbaColor>)
    ensures |cs| == |clusters|
    ensures forall k :: 0 <= k < |clusters| ==> cs[k] == UpdateCentroid(clusters[k])
  {
    if clusters == [] then [] else NewCentroids(clusters[..|clusters| - 1]) + [UpdateCentroid(clusters[|clusters| - 1])]
  }

  /** Channel `ch` of a colour: 0 is r, 1 is g, 2 is b, 3 is a. */
  function Channel(c: RgbaColor, ch: nat): nat
    requires ch < 4
  {
    if ch == 0 then c.r as nat else if ch == 1 then c.g as nat else if ch == 2 then c.b as nat else c.a as nat
  }

  /** The sum of channel `ch` in an accumulator. */
  function ChannelSum(t: Totals, ch: nat): nat
    requires ch < 4
  {
    if ch == 0 then t.r else if ch == 1 then t.g else if ch == 2 then t.b else t.a
  }

  /** The fold counts every pixel and sums at most 255 per pixel in each channel. */
  lemma {:induction false} SumColorsBounded(s: seq<RgbaColor>)
    ensures SumColors(s).count == |s| && Bounded(SumColors(s))
  {
    if s != [] {
      SumColorsBounded(s[..|s| - 1]);
    }
  }

  /** Channel sums lie between the channel's bounds times the pixel count. */
  lemma {:induction false} ChannelSumBounds(s: seq<RgbaColor>, ch: nat, lo: nat, hi: nat)
    requires ch < 4
    requires forall i :: 0 <= i < |s| ==> lo <= Channel(s[i], ch) <= hi
    ensures lo * |s| <= ChannelSum(SumColors(s), ch) <= hi * |s|
  {
    if s != [] {
      var n := |s| - 1;
      PrefixBounds(s, s[..n], ch, lo, hi);
      ChannelSumBounds(s[..n], ch, lo, hi);
      ChannelSumSnoc(s, ch);
      MulSucc(lo, n);
      MulSucc(hi, n);
    }
  }

  lemma PrefixBounds(s: seq<RgbaColor>, t: seq<RgbaColor>, ch: nat, lo: nat, hi: nat)
    requires s != [] && ch < 4 && t == s[..|s| - 1]
    requires forall i :: 0 <= i < |s| ==> lo <= Channel(s[i], ch) <= hi
    ensures forall i :: 0 <= i < |t| ==> lo <= Channel(t[i], ch) <= hi
  {
  }

  lemma ChannelSumSnoc(s: seq<RgbaColor>, ch: nat)
    requires s != [] && ch < 4
    ensures ChannelSum(SumColors(s), ch) == ChannelSum(SumColors(s[..|s| - 1]), ch) + Channel(s[|s| - 1], ch)
  {
  }

  /**
   * A non-empty cluster's new centroid is its exact truncated mean in
   * every channel (the `as u8` cast loses nothing) and lies between the
   * smallest and the largest value of that channel in the cluster.
   */
  lemma UpdateCentroidMean(cluster: seq<RgbaColor>, ch: nat, lo: nat, hi: nat)
    requires |cluster| > 0 && ch < 4
    requires forall i :: 0 <= i < |cluster| ==> lo <= Channel(cluster[i], ch) <= hi
    ensures Channel(UpdateCentroid(cluster), ch) == ChannelSum(SumColors(cluster), ch) / |cluster|
    ensures lo <= Channel(UpdateCentroid(cluster), ch) <= hi
  {
    var t := SumColors(cluster);
    SumColorsBounded(cluster);
    MeanColorExact(t);
    ChannelSumBounds(cluster, ch, lo, hi);
    DivBetween(ChannelSum(t, ch), |cluster|, lo, hi);
  }



  /**
   * The settle check over `new_centroid.iter().zip(&centroid)`: every new
   * centroid is within the threshold of the old one at the same index,
   * pairing stopping at the end of the shorter list.
   */
  predicate Settled(news: seq<RgbaColor>, olds: seq<RgbaColor>, bound: int)
    decreases |news|
  {
    news == [] || olds == [] || (Dist2(news[0], olds[0]) <= bound && Settled(news[1..], olds[1..], bound))
  }

  /** Settled lists are those whose paired centroids are all within the threshold. */
  lemma {:induction false} SettledAll(news: seq<RgbaColor>, olds: seq<RgbaColor>, bound: int)
    ensures Settled(news, olds, bound) <==> forall k :: 0 <= k < |news| && k < |olds| ==> Dist2(news[k], olds[k]) <= bound
    decreases |news|
  {
    if news != [] && olds != [] {
      SettledAll(news[1..], olds[1..], bound);
      if forall k :: 0 <= k < |news| && k < |olds| ==> Dist2(news[k], olds[k]) <= bound {
        forall k | 0 <= k < |news| - 1 && k < |olds| - 1
          ensures Dist2(news[1..][k], olds[1..][k]) <= bound
        {
          assert news[1..][k] == news[k + 1] && olds[1..][k] == olds[k + 1];
        }
      }
      if Settled(news, olds, bound) {
        forall k | 0 < k < |news| && k < |olds|
          ensures Dist2(news[k], olds[k]) <= bound
        {
          assert news[1..][k - 1] == news[k] && olds[1..][k - 1] == olds[k];
        }
      }
    }
  }

  /** The `zip` loop that clears `is_settled` at the first centroid that moved too far. */
  method IsSettled(news: seq<RgbaColor>, olds: seq<RgbaColor>, bound: int) returns (settled: bool)
    ensures settled <==> Settled(news, olds, bound)
  {
    settled := true;
    var k := 0;
    while k < |news| && k < |olds|
      invariant k <= |news| && k <= |olds|
      invariant Settled(news, olds, bound) == Settled(news[k..], olds[k..], bound)
    {
      assert news[k..][1..] == news[k + 1..] && olds[k..][1..] == olds[k + 1..];
      if Dist2(news[k], olds[k]) > bound {
        settled := false;
        break;
      }
      k := k + 1;
    }
  }

  /**
   * One round of `get_primary_colors`: assign every pixel to its closest
   * centroid, then replace each centroid by its cluster's mean. A round
   * over no centroids keeps none (over no pixels; with pixels the source
   * panics, which `Refine` reports before any round).
   */
  function Step(cs: seq<RgbaColor>, pixels: seq<RgbaColor>): (next: seq<RgbaColor>)
    ensures |next| == |cs|
  {
    if |cs| == 0 then [] else NewCentroids(Assignment(cs, pixels))
  }

  /**
   * After a round, centroid `k` is the mean of the pixels whose nearest
   * centroid was `k`, or opaque black when no pixel was nearest to it.
   */
  lemma StepAt(cs: seq<RgbaColor>, pixels: seq<RgbaColor>, k: nat)
    requires k < |cs|
    ensures Step(cs, pixels)[k] == UpdateCentroid(Members(cs, pixels, k))
    ensures Members(cs, pixels, k) == [] ==> Step(cs, pixels)[k] == RgbaColor(0, 0, 0, 255)
  {
    AssignmentMembers(cs, pixels, k);
  }

  /** Each channel of a round's centroid `k` is the truncated mean of that channel over the pixels nearest `k`. */
  lemma StepMean(cs: seq<RgbaColor>, pixels: seq<RgbaColor>, k: nat, ch: nat)
    requires k < |cs| && ch < 4
    ensures var m := Members(cs, pixels, k);
      |m| > 0 ==> Channel(Step(cs, pixels)[k], ch) == ChannelSum(SumColors(m), ch) / |m|
  {
    var m := Members(cs, pixels, k);
    StepAt(cs, pixels, k);
    if |m| > 0 {
      ClusterMean(m, ch);
    }
  }

  /** `UpdateCentroidMean` with the bounds every byte channel meets. */
  lemma ClusterMean(cluster: seq<RgbaColor>, ch: nat)
    requires |cluster| > 0 && ch < 4
    ensures Channel(UpdateCentroid(cluster), ch) == ChannelSum(SumColors(cluster), ch) / |cluster|
  {
    forall i | 0 <= i < |cluster|
      ensures 0 <= Channel(cluster[i], ch) <= 255
    {
    }
    UpdateCentroidMean(cluster, ch, 0, 255);
  }

  /**
   * The countdown loop of `get_primary_colors` over any round function:
   * at most `rounds` rounds, stopping as soon as a round's result is
   * settled against the centroids it started from, which are then the
   * ones returned.
   */
  function Iterate(round: seq<RgbaColor> -> seq<RgbaColor>, settled: (seq<RgbaColor>, seq<RgbaColor>) -> bool,
                   cs: seq<RgbaColor>, rounds: nat): seq<RgbaColor>
    decreases rounds
  {
    if rounds == 0 then cs
    else
      var next := round(cs);
      if settled(next, cs) then cs else Iterate(round, settled, next, rounds - 1)
  }

  /** A round that keeps the number of centroids keeps it over the whole loop. */
  lemma {:induction false} IterateLength(round: seq<RgbaColor> -> seq<RgbaColor>, settled: (seq<RgbaColor>, seq<RgbaColor>) -> bool,
                                         cs: seq<RgbaColor>, rounds: nat)
    requires forall x :: |round(x)| == |x|
    ensures |Iterate(round, settled, cs, rounds)| == |cs|
    decreases rounds
  {
    if rounds > 0 && !settled(round(cs), cs) {
      IterateLength(round, settled, round(cs), rounds - 1);
    }
  }

  /** The loop returns its starting centroids or the result of some round. */
  lemma {:induction false} IterateOutcome(round: seq<RgbaColor> -> seq<RgbaColor>, settled: (seq<RgbaColor>, seq<RgbaColor>) -> bool,
                                          cs: seq<RgbaColor>, rounds: nat)
    ensures Iterate(round, settled, cs, rounds) == cs || exists prev :: Iterate(round, settled, cs, rounds) == round(prev)
    decreases rounds
  {
    if rounds > 0 && !settled(round(cs), cs) {
      var next := round(cs);
      IterateOutcome(round, settled, next, rounds - 1);
      if Iterate(round, settled, next, rounds - 1) == next {
        assert Iterate(round, settled, cs, rounds) == round(cs);
      }
    }
  }

  /**
   * What `get_primary_colors` returns from the centroids `cs` with
   * `rounds` rounds left. Every round keeps the number of centroids, so
   * the source's `unwrap` over no centroids panics in the first round or
   * never. A round whose new centroids are all within the threshold
   * returns the centroids it started from, discarding the new ones.
   */
  function Refine(cs: seq<RgbaColor>, pixels: seq<RgbaColor>, bound: int, rounds: nat): Result<seq<RgbaColor>, QuantizeError>
  {
    if rounds > 0 && |cs| == 0 && |pixels| > 0 then Err(NoCentroids)
    else Ok(Iterate(x => Step(x, pixels), (news, olds) => Settled(news, olds, bound), cs, rounds))
  }

  /** Refinement keeps the number of centroids. */
  lemma RefineLength(cs: seq<RgbaColor>, pixels: seq<RgbaColor>, bound: int, rounds: nat)
    ensures Refine(cs, pixels, bound, rounds).Ok? ==> |Refine(cs, pixels, bound, rounds).value| == |cs|
  {
    IterateLength(x => Step(x, pixels), (news, olds) => Settled(news, olds, bound), cs, rounds);
  }

  /**
   * The result is the starting centroids or the outcome of some round:
   * every returned centroid is then a cluster mean or the empty-cluster
   * fallback.
   */
  lemma RefineUpdated(cs: seq<RgbaColor>, pixels: seq<RgbaColor>, bound: int, rounds: nat)
    requires Refine(cs, pixels, bound, rounds).Ok?
    ensures var v := Refine(cs, pixels, bound, rounds).value;
      v == cs || exists prev :: v == Step(prev, pixels)
  {
    var round := x => Step(x, pixels);
    IterateOutcome(round, (news, olds) => Settled(news, olds, bound), cs, rounds);
    var v := Refine(cs, pixels, bound, rounds).value;
    if v != cs {
      var prev :| v == round(prev);
      assert v == Step(prev, pixels);
    }
  }

  /**
   * Centroids that one round maps to themselves are returned unchanged,
   * whatever the number of rounds, for any non-negative threshold.
   */
  lemma RefineFixedPoint(cs: seq<RgbaColor>, pixels: seq<RgbaColor>, bound: int, rounds: nat)
    requires |cs| > 0 && bound >= 0
    requires Step(cs, pixels) == cs
    ensures Refine(cs, pixels, bound, rounds) == Ok(cs)
  {
    forall k | 0 <= k < |cs|
      ensures Dist2(cs[k], cs[k]) <= bound
    {
      Dist2ZeroIff(cs[k], cs[k]);
    }
    SettledAll(cs, cs, bound);
  }

  /** One round of `Refine`, unfolded. */
  lemma RefineRound(cs: seq<RgbaColor>, pixels: seq<RgbaColor>, bound: int, rounds: nat)
    requires rounds > 0 && (|cs| > 0 || pixels == [])
    ensures var next := Step(cs, pixels);
      Refine(cs, pixels, bound, rounds) == if Settled(next, cs, bound) then Ok(cs) else Refine(next, pixels, bound, rounds - 1)
  {
  }

  /**
   * `Kmeans::get_primary_colors` from the given initial centroids: the
   * countdown loop of assignment, update and settle check.
   */
  method GetPrimaryColors(km: Kmeans, initial: seq<RgbaColor>) returns (result: Result<seq<RgbaColor>, QuantizeError>)
    requires |initial| == km.initCentroid
    ensures result == Refine(initial, km.image.pixels, km.settleBound, km.iteration)
    ensures result.Ok? ==> |result.value| == km.initCentroid
    ensures result.Err? <==> km.iteration > 0 && km.initCentroid == 0 && |km.image.pixels| > 0
    ensures km.iteration == 0 ==> result == Ok(initial)
  {
    var pixels := km.image.pixels;
    var centroid := initial;
    var iteration := km.iteration;
    RefineLength(initial, pixels, km.settleBound, km.iteration);
    while iteration > 0
      invariant Refine(centroid, pixels, km.settleBound, iteration) == Refine(initial, pixels, km.settleBound, km.iteration)
      decreases iteration
    {
      iteration := iteration - 1;
      if |centroid| == 0 && |pixels| > 0 {
        return Err(NoCentroids);
      }
      var clusters := Assign(centroid, pixels);
      var newCentroid := NewCentroids(clusters);
      var settled := IsSettled(newCentroid, centroid, km.settleBound);
      RefineRound(centroid, pixels, km.settleBound, iteration + 1);
      if settled {
        break;
      }
      centroid := newCentroid;
    }
    result := Ok(centroid);
  }
}
