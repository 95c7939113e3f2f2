/** Adjacency melding, `Box.meldAdjacent`, as a RECONSTRUCTION.

    `Box.java` has no body for `meldAdjacent`, although `MainController.meld`
    calls it and reads the `MeldResult` record it returns. What follows is one algorithm with the documented behaviour, built
    on the modelled `shortestDistance` and `meld`, and it is not claimed to
    be the source's: every ordered pair of distinct boxes closer than the
    threshold joins their clusters (a union-find kept as a labelling, each
    box labelled with a representative of its cluster); each final cluster
    is melded into one box; `didMeld` records whether any union happened.
    The pass is single: the melded boxes are not compared again. */
module Melding {
  import opened Wrappers
  import opened Boxes

  /** `MeldResult.java`: the melded boxes and whether any melding happened. */
  datatype MeldResult = MeldResult(melds: seq<Box>, didMeld: bool)

  // ---------------------------------------------------------------------
  // Adjacency and connectivity
  // ---------------------------------------------------------------------

  /** `a.shortestDistance(b) < threshold`, compared on squares: the
      distance is the non-negative square root of `ShortestDistanceSquared`,
      so it is below the threshold exactly when the threshold is positive
      and the squared distance is below the squared threshold
      (`AdjacentIsDistanceBelow`). */
  predicate Adjacent(a: Box, b: Box, threshold: real)
    requires a.Valid() && b.Valid()
    ensures Adjacent(a, b, threshold) ==> 0.0 < threshold
  {
    0.0 < threshold && (ShortestDistanceSquared(a, b) as real) < threshold * threshold
  }

  lemma MulPositive(x: real, y: real)
    requires 0.0 < x && 0.0 < y
    ensures 0.0 < x * y
  {
  }

  lemma MulNonNegative(x: real, y: real)
    requires 0.0 <= x && 0.0 <= y
    ensures 0.0 <= x * y
  {
  }

  lemma MulDistributes(x: real, y: real, z: real)
    ensures x * (y - z) == x * y - x * z
  {
  }

  /** For non-negative reals, comparing squares against a positive bound is
      comparing the values themselves. */
  lemma {:induction false} BelowOnSquares(square: real, root: real, bound: real)
    requires 0.0 <= root && root * root == square
    ensures (0.0 < bound && square < bound * bound) <==> root < bound
  {
    if root < bound {
      MulNonNegative(root, bound - root);
      MulDistributes(root, bound, root);
      MulPositive(bound, bound - root);
      MulDistributes(bound, bound, root);
    } else if 0.0 < bound {
      MulNonNegative(root, root - bound);
      MulDistributes(root, root, bound);
      MulNonNegative(bound, root - bound);
      MulDistributes(bound, root, bound);
    }
  }

  /** For the source's distance, the non-negative square root of the
      squared distance, adjacency is exactly `distance < threshold`. */
  lemma AdjacentIsDistanceBelow(a: Box, b: Box, threshold: real, distance: real)
    requires a.Valid() && b.Valid()
    requires 0.0 <= distance && distance * distance == ShortestDistanceSquared(a, b) as real
    ensures Adjacent(a, b, threshold) <==> distance < threshold
  {
    BelowOnSquares(ShortestDistanceSquared(a, b) as real, distance, threshold);
  }

  /** With a positive threshold overlapping boxes are always adjacent; with
      a threshold of zero or less, no two boxes are, not even overlapping
      ones, because the comparison is strict. */
  lemma AdjacentAndThreshold(a: Box, b: Box, threshold: real)
    requires a.Valid() && b.Valid()
    ensures threshold > 0.0 && Overlap(a, b) ==> Adjacent(a, b, threshold)
    ensures threshold <= 0.0 ==> !Adjacent(a, b, threshold)
  {
    BelowOnSquares(0.0, 0.0, threshold);
  }

  /** Adjacency does not depend on the order of the two boxes. */
  lemma AdjacentSymmetric(a: Box, b: Box, threshold: real)
    requires a.Valid() && b.Valid()
    ensures Adjacent(a, b, threshold) == Adjacent(b, a, threshold)
  {
    DistanceSymmetric(a, b);
  }

  /** `p` is a walk through the boxes, each step between adjacent boxes. */
  ghost predicate IsPath(boxes: seq<Box>, threshold: real, p: seq<nat>)
    requires AllValid(boxes)
  {
    && |p| > 0
    && (forall i :: 0 <= i < |p| ==> p[i] < |boxes|)
    && (forall i :: 0 <= i < |p| - 1 ==> Adjacent(boxes[p[i]], boxes[p[i + 1]], threshold))
  }

  /** Boxes `a` and `b` are linked by a chain of adjacent boxes. */
  ghost predicate Connected(boxes: seq<Box>, threshold: real, a: nat, b: nat)
    requires AllValid(boxes)
  {
    exists p :: IsPath(boxes, threshold, p) && p[0] == a && p[|p| - 1] == b
  }

  lemma ConnectedToSelf(boxes: seq<Box>, threshold: real, a: nat)
    requires AllValid(boxes) && a < |boxes|
    ensures Connected(boxes, threshold, a, a)
  {
    assert IsPath(boxes, threshold, [a]);
  }

  lemma ConnectedReversed(boxes: seq<Box>, threshold: real, a: nat, b: nat)
    requires AllValid(boxes) && Connected(boxes, threshold, a, b)
    ensures Connected(boxes, threshold, b, a)
  {
    var p :| IsPath(boxes, threshold, p) && p[0] == a && p[|p| - 1] == b;
    var q := seq(|p|, i requires 0 <= i < |p| => p[|p| - 1 - i]);
    forall i | 0 <= i < |q| - 1
      ensures Adjacent(boxes[q[i]], boxes[q[i + 1]], threshold)
    {
      var k := |p| - 2 - i;
      assert q[i] == p[k + 1] && q[i + 1] == p[k];
      AdjacentSymmetric(boxes[p[k]], boxes[p[k + 1]], threshold);
    }
    assert IsPath(boxes, threshold, q);
  }

  lemma ConnectedJoined(boxes: seq<Box>, threshold: real, a: nat, b: nat, c: nat)
    requires AllValid(boxes)
    requires Connected(boxes, threshold, a, b) && Connected(boxes, threshold, b, c)
    ensures Connected(boxes, threshold, a, c)
  {
    var p :| IsPath(boxes, threshold, p) && p[0] == a && p[|p| - 1] == b;
    var q :| IsPath(boxes, threshold, q) && q[0] == b && q[|q| - 1] == c;
    var r := p + q[1..];
    forall i | 0 <= i < |r| - 1
      ensures Adjacent(boxes[r[i]], boxes[r[i + 1]], threshold)
    {
      if i < |p| - 1 {
        assert r[i] == p[i] && r[i + 1] == p[i + 1];
      } else {
        var k := i - |p| + 1;
        assert r[i] == q[k] && r[i + 1] == q[k + 1];
      }
    }
    assert IsPath(boxes, threshold, r);
  }

  lemma AdjacentConnected(boxes: seq<Box>, threshold: real, a: nat, b: nat)
    requires AllValid(boxes) && a < |boxes| && b < |boxes|
    requires Adjacent(boxes[a], boxes[b], threshold)
    ensures Connected(boxes, threshold, a, b)
  {
    assert IsPath(boxes, threshold, [a, b]);
  }

  // ---------------------------------------------------------------------
  // The union-find, kept as a labelling
  // ---------------------------------------------------------------------

  /** Each index is labelled with an index whose own label is itself: the
      representative of its cluster. */
  predicate IsLabelling(lab: seq<nat>) {
    forall k :: 0 <= k < |lab| ==> lab[k] < |lab| && lab[lab[k]] == lab[k]
  }

  /** Union: every index labelled `from` is relabelled `to`. */
  function Relabel(lab: seq<nat>, from: nat, to: nat): (r: seq<nat>)
    ensures |r| == |lab|
  {
    seq(|lab|, k requires 0 <= k < |lab| => if lab[k] == from then to else lab[k])
  }

  /** Uniting the clusters of two representatives keeps a labelling, keeps
      every two indices that shared a label together, and puts the two
      clusters together. */
  lemma RelabelUnites(lab: seq<nat>, i: nat, j: nat)
    requires IsLabelling(lab) && i < |lab| && j < |lab|
    ensures IsLabelling(Relabel(lab, lab[j], lab[i]))
    ensures forall a, b :: 0 <= a < |lab| && 0 <= b < |lab| && lab[a] == lab[b] ==>
      Relabel(lab, lab[j], lab[i])[a] == Relabel(lab, lab[j], lab[i])[b]
    ensures Relabel(lab, lab[j], lab[i])[i] == Relabel(lab, lab[j], lab[i])[j]
  {
  }

  /** Every pair of adjacent boxes whose first index is below `rows` shares
      a label. */
  predicate ClosedBelow(boxes: seq<Box>, threshold: real, lab: seq<nat>, rows: nat)
    requires AllValid(boxes) && |lab| == |boxes|
  {
    forall a, b :: 0 <= a < rows && a < |boxes| && 0 <= b < |boxes| && Adjacent(boxes[a], boxes[b], threshold) ==>
      lab[a] == lab[b]
  }

  /** Every box is connected to its label. */
  ghost predicate LabelsConnected(boxes: seq<Box>, threshold: real, lab: seq<nat>)
    requires AllValid(boxes) && |lab| == |boxes|
  {
    forall k :: 0 <= k < |boxes| ==> Connected(boxes, threshold, k, lab[k])
  }

  /** Every box is its own label: no union has happened. */
  predicate Singletons(lab: seq<nat>) {
    forall k :: 0 <= k < |lab| ==> lab[k] == k
  }

  /** Two different boxes share a label. */
  predicate SomeShared(lab: seq<nat>) {
    exists a, b :: 0 <= a < |lab| && 0 <= b < |lab| && a != b && lab[a] == lab[b]
  }

  /** Two different boxes are adjacent. */
  predicate SomeAdjacent(boxes: seq<Box>, threshold: real)
    requires AllValid(boxes)
  {
    exists a, b :: 0 <= a < |boxes| && 0 <= b < |boxes| && a != b && Adjacent(boxes[a], boxes[b], threshold)
  }

  /** What holds between unions in the labelling pass. */
  ghost predicate PassInvariant(boxes: seq<Box>, threshold: real, lab: seq<nat>, didMeld: bool)
    requires AllValid(boxes)
  {
    && |lab| == |boxes| && IsLabelling(lab)
    && LabelsConnected(boxes, threshold, lab)
    && (!didMeld ==> Singletons(lab))
    && (didMeld ==> SomeShared(lab) && SomeAdjacent(boxes, threshold))
  }

  /** The labelling pass over every ordered pair of distinct boxes. On exit
      the labels are representatives, adjacent boxes share a label, every box
      is connected to its label, and `didMeld` holds exactly when two boxes
      share a label, which is exactly when two boxes are adjacent. */
  method Label(boxes: seq<Box>, threshold: real) returns (lab: seq<nat>, didMeld: bool)
    requires AllValid(boxes)
    ensures |lab| == |boxes| && IsLabelling(lab)
    ensures ClosedBelow(boxes, threshold, lab, |boxes|)
    ensures LabelsConnected(boxes, threshold, lab)
    ensures !didMeld ==> Singletons(lab)
    ensures didMeld <==> SomeShared(lab)
    ensures didMeld <==> SomeAdjacent(boxes, threshold)
  {
    var n := |boxes|;
    lab := seq(n, k requires 0 <= k < n => k);
    didMeld := false;
    forall k | 0 <= k < n ensures Connected(boxes, threshold, k, lab[k]) {
      ConnectedToSelf(boxes, threshold, k);
    }
    var i := 0;
    while i < n
      invariant 0 <= i <= n
      invariant PassInvariant(boxes, threshold, lab, didMeld)
      invariant ClosedBelow(boxes, threshold, lab, i)
    {
      lab, didMeld := LabelRow(boxes, threshold, lab, didMeld, i);
      i := i + 1;
    }
    if SomeAdjacent(boxes, threshold) {
      var a, b :| 0 <= a < n && 0 <= b < n && a != b && Adjacent(boxes[a], boxes[b], threshold);
      assert lab[a] == lab[b];
    }
  }

  /** One row of the pass: box `i` against every other box, in index order. */
  method LabelRow(boxes: seq<Box>, threshold: real, lab0: seq<nat>, didMeld0: bool, i: nat)
    returns (lab: seq<nat>, didMeld: bool)
    requires AllValid(boxes) && i < |boxes|
    requires PassInvariant(boxes, threshold, lab0, didMeld0)
    requires ClosedBelow(boxes, threshold, lab0, i)
    ensures PassInvariant(boxes, threshold, lab, didMeld)
    ensures ClosedBelow(boxes, threshold, lab, i + 1)
  {
    var n := |boxes|;
    lab, didMeld := lab0, didMeld0;
    var j := 0;
    while j < n
      invariant 0 <= j <= n
      invariant PassInvariant(boxes, threshold, lab, didMeld)
      invariant ClosedBelow(boxes, threshold, lab, i)
      invariant forall b :: 0 <= b < j && Adjacent(boxes[i], boxes[b], threshold) ==> lab[i] == lab[b]
    {
      if i != j && lab[i] != lab[j] && Adjacent(boxes[i], boxes[j], threshold) {
        Unite(boxes, threshold, lab, i, j);
        lab := Relabel(lab, lab[j], lab[i]);
        didMeld := true;
      }
      j := j + 1;
    }
  }

  /** The facts `Label`'s loop needs about one union of the clusters of two
      adjacent boxes `i` and `j`. */
  lemma Unite(boxes: seq<Box>, threshold: real, lab: seq<nat>, i: nat, j: nat)
    requires AllValid(boxes) && |lab| == |boxes| && IsLabelling(lab)
    requires i < |boxes| && j < |boxes| && i != j && Adjacent(boxes[i], boxes[j], threshold)
    requires forall k :: 0 <= k < |boxes| ==> Connected(boxes, threshold, k, lab[k])
    ensures IsLabelling(Relabel(lab, lab[j], lab[i]))
    ensures forall a, b :: 0 <= a < |lab| && 0 <= b < |lab| && lab[a] == lab[b] ==>
      Relabel(lab, lab[j], lab[i])[a] == Relabel(lab, lab[j], lab[i])[b]
    ensures Relabel(lab, lab[j], lab[i])[i] == Relabel(lab, lab[j], lab[i])[j]
    ensures forall k :: 0 <= k < |boxes| ==> Connected(boxes, threshold, k, Relabel(lab, lab[j], lab[i])[k])
  {
    RelabelUnites(lab, i, j);
    var next := Relabel(lab, lab[j], lab[i]);
    forall k | 0 <= k < |boxes| ensures Connected(boxes, threshold, k, next[k]) {
      if lab[k] == lab[j] {
        // k ~ lab[j] ~ j ~ i ~ lab[i]
        ConnectedReversed(boxes, threshold, j, lab[j]);
        ConnectedJoined(boxes, threshold, k, lab[j], j);
        AdjacentSymmetric(boxes[i], boxes[j], threshold);
        AdjacentConnected(boxes, threshold, j, i);
        ConnectedJoined(boxes, threshold, k, j, i);
        ConnectedJoined(boxes, threshold, k, i, lab[i]);
      }
    }
  }

  // ---------------------------------------------------------------------
  // Numbering the clusters and melding them
  // ---------------------------------------------------------------------

  /** The representatives below `m`, in increasing order. */
  function RootsBelow(lab: seq<nat>, m: nat): (rs: seq<nat>)
    requires m <= |lab|
    ensures forall x :: x in rs <==> 0 <= x < m && lab[x] == x
    ensures forall p, q :: 0 <= p < q < |rs| ==> rs[p] < rs[q]
    decreases m
  {
    if m == 0 then []
    else
      var front := RootsBelow(lab, m - 1);
      if lab[m - 1] == m - 1 then
        assert forall p :: 0 <= p < |front| ==> front[p] in front;
        front + [m - 1]
      else
        front
  }

  /** The number of representatives below `x`. A cluster's number is the
      rank of its representative, so clusters are numbered in the order their
      representatives appear. */
  function Rank(lab: seq<nat>, x: nat): nat
    requires x <= |lab|
  {
    |RootsBelow(lab, x)|
  }

  lemma {:induction false} RootsPrefix(lab: seq<nat>, m: nat, n: nat)
    requires m <= n <= |lab|
    ensures |RootsBelow(lab, m)| <= |RootsBelow(lab, n)|
    ensures RootsBelow(lab, m) == RootsBelow(lab, n)[..|RootsBelow(lab, m)|]
    decreases n
  {
    if m < n {
      RootsPrefix(lab, m, n - 1);
    }
  }

  /** The representative `x` sits at position `Rank(lab, x)` of the list of
      all representatives. */
  lemma RankOfRoot(lab: seq<nat>, x: nat)
    requires x < |lab| && lab[x] == x
    ensures Rank(lab, x) < |RootsBelow(lab, |lab|)|
    ensures RootsBelow(lab, |lab|)[Rank(lab, x)] == x
  {
    RootsPrefix(lab, x + 1, |lab|);
    assert RootsBelow(lab, x + 1) == RootsBelow(lab, x) + [x];
  }

  /** The `m`-th representative has rank `m`. */
  lemma RankOfNth(lab: seq<nat>, m: nat)
    requires m < |RootsBelow(lab, |lab|)|
    ensures RootsBelow(lab, |lab|)[m] < |lab| && lab[RootsBelow(lab, |lab|)[m]] == RootsBelow(lab, |lab|)[m]
    ensures Rank(lab, RootsBelow(lab, |lab|)[m]) == m
  {
    var roots := RootsBelow(lab, |lab|);
    assert roots[m] in roots;
    RankOfRoot(lab, roots[m]);
  }

  /** With no union every index is a representative, so each is its own
      rank. */
  lemma {:induction false} RankOfSingletons(lab: seq<nat>, x: nat)
    requires Singletons(lab) && x <= |lab|
    ensures Rank(lab, x) == x
    decreases x
  {
    if x > 0 {
      RankOfSingletons(lab, x - 1);
    }
  }

  /** The boxes numbered `m` by `cluster`, in index order. */
  function Members(boxes: seq<Box>, cluster: seq<nat>, m: nat): (ms: seq<Box>)
    requires |cluster| == |boxes|
    ensures forall k :: 0 <= k < |boxes| && cluster[k] == m ==> boxes[k] in ms
    ensures forall b :: b in ms ==> exists k :: 0 <= k < |boxes| && cluster[k] == m && boxes[k] == b
    ensures AllValid(boxes) ==> AllValid(ms)
    decreases |boxes|
  {
    if |boxes| == 0 then []
    else
      var n := |boxes| - 1;
      var front := Members(boxes[..n], cluster[..n], m);
      assert AllValid(boxes) ==> AllValid(boxes[..n]);
      front + (if cluster[n] == m then [boxes[n]] else [])
  }

  /** When `m` numbers box `m` alone, its members are that box. */
  lemma {:induction false} MembersOfSingleton(boxes: seq<Box>, cluster: seq<nat>, m: nat)
    requires |cluster| == |boxes| && m < |boxes|
    requires forall k :: 0 <= k < |boxes| ==> (cluster[k] == m <==> k == m)
    ensures Members(boxes, cluster, m) == [boxes[m]]
    decreases |boxes|
  {
    var n := |boxes| - 1;
    if m < n {
      MembersOfSingleton(boxes[..n], cluster[..n], m);
    } else {
      MembersOfNone(boxes[..n], cluster[..n], m);
    }
  }

  /** A number given to no box has no members. */
  lemma {:induction false} MembersOfNone(boxes: seq<Box>, cluster: seq<nat>, m: nat)
    requires |cluster| == |boxes|
    requires forall k :: 0 <= k < |boxes| ==> cluster[k] != m
    ensures Members(boxes, cluster, m) == []
    decreases |boxes|
  {
    if |boxes| > 0 {
      var n := |boxes| - 1;
      MembersOfNone(boxes[..n], cluster[..n], m);
    }
  }

  /** Meld the boxes of each of the clusters numbered `0` to `count - 1`. */
  method MeldClusters(boxes: seq<Box>, cluster: seq<nat>, count: nat) returns (melds: seq<Box>)
    requires AllValid(boxes) && |cluster| == |boxes|
    requires forall m :: 0 <= m < count ==> m in cluster
    ensures |melds| == count
    ensures forall m :: 0 <= m < count ==> Meld(Members(boxes, cluster, m)) == Success(melds[m])
  {
    melds := [];
    var m := 0;
    while m < count
      invariant 0 <= m <= count && |melds| == m
      invariant forall q :: 0 <= q < m ==> Meld(Members(boxes, cluster, q)) == Success(melds[q])
    {
      var ms := Members(boxes, cluster, m);
      assert m in cluster;
      var k :| 0 <= k < |cluster| && cluster[k] == m;
      assert boxes[k] in ms;
      melds := melds + [Meld(ms).value];
      m := m + 1;
    }
  }

  /** Each box is enclosed by the meld of its cluster. */
  lemma EnclosedByOwnMeld(boxes: seq<Box>, cluster: seq<nat>, melds: seq<Box>)
    requires AllValid(boxes) && |cluster| == |boxes|
    requires forall k :: 0 <= k < |boxes| ==> cluster[k] < |melds|
    requires forall m :: 0 <= m < |melds| ==> Meld(Members(boxes, cluster, m)) == Success(melds[m])
    ensures forall k :: 0 <= k < |boxes| ==> Encloses(melds[cluster[k]], boxes[k])
  {
    forall k | 0 <= k < |boxes| ensures Encloses(melds[cluster[k]], boxes[k]) {
      var ms := Members(boxes, cluster, cluster[k]);
      assert boxes[k] in ms;
      var p :| 0 <= p < |ms| && ms[p] == boxes[k];
    }
  }

  /** Boxes with the same label are linked by a chain of adjacent boxes. */
  lemma SameLabelConnected(boxes: seq<Box>, threshold: real, lab: seq<nat>, a: nat, b: nat)
    requires AllValid(boxes) && |lab| == |boxes| && IsLabelling(lab)
    requires LabelsConnected(boxes, threshold, lab)
    requires a < |boxes| && b < |boxes| && lab[a] == lab[b]
    ensures Connected(boxes, threshold, a, b)
  {
    ConnectedReversed(boxes, threshold, b, lab[b]);
    ConnectedJoined(boxes, threshold, a, lab[a], b);
  }

  /** Numbering clusters by a labelling: adjacent boxes get the same number,
      and boxes with the same number are linked by a chain of adjacent
      boxes. */
  lemma ClustersAreComponents(boxes: seq<Box>, threshold: real, lab: seq<nat>, cluster: seq<nat>)
    requires AllValid(boxes) && |lab| == |boxes| && IsLabelling(lab) && |cluster| == |boxes|
    requires ClosedBelow(boxes, threshold, lab, |boxes|) && LabelsConnected(boxes, threshold, lab)
    requires forall a, b :: 0 <= a < |lab| && 0 <= b < |lab| ==> (cluster[a] == cluster[b] <==> lab[a] == lab[b])
    ensures forall a, b :: 0 <= a < |boxes| && 0 <= b < |boxes| && Adjacent(boxes[a], boxes[b], threshold) ==>
      cluster[a] == cluster[b]
    ensures forall a, b :: 0 <= a < |boxes| && 0 <= b < |boxes| && cluster[a] == cluster[b] ==>
      Connected(boxes, threshold, a, b)
  {
    forall a, b | 0 <= a < |boxes| && 0 <= b < |boxes| && cluster[a] == cluster[b]
      ensures Connected(boxes, threshold, a, b)
    {
      SameLabelConnected(boxes, threshold, lab, a, b);
    }
  }

  /** Two sequences whose entries agree in the same places share an entry
      between different places alike. */
  lemma SharedAlike(x: seq<nat>, y: seq<nat>)
    requires |x| == |y|
    requires forall a, b :: 0 <= a < |x| && 0 <= b < |x| ==> (x[a] == x[b] <==> y[a] == y[b])
    ensures SomeShared(x) <==> SomeShared(y)
  {
    if SomeShared(x) {
      var a, b :| 0 <= a < |x| && 0 <= b < |x| && a != b && x[a] == x[b];
      assert y[a] == y[b];
    }
    if SomeShared(y) {
      var a, b :| 0 <= a < |y| && 0 <= b < |y| && a != b && y[a] == y[b];
      assert x[a] == x[b];
    }
  }

  /** When cluster `k` is box `k` alone, meld `k` is box `k`. */
  lemma SingletonMelds(boxes: seq<Box>, cluster: seq<nat>, melds: seq<Box>)
    requires AllValid(boxes) && |cluster| == |boxes| && |melds| == |boxes|
    requires forall k :: 0 <= k < |boxes| ==> cluster[k] == k
    requires forall m :: 0 <= m < |melds| ==> Meld(Members(boxes, cluster, m)) == Success(melds[m])
    ensures melds == boxes
  {
    forall q | 0 <= q < |boxes| ensures melds[q] == boxes[q] {
      MembersOfSingleton(boxes, cluster, q);
      MeldSingleton(boxes[q]);
    }
  }

  /** Number the clusters of a labelling `0` to `count - 1` in the order their
      representatives appear. Every number is used; two indices get the same
      number exactly when they have the same label; and with no union each
      index is its own cluster. */
  method NumberClusters(lab: seq<nat>) returns (cluster: seq<nat>, count: nat)
    requires IsLabelling(lab)
    ensures |cluster| == |lab|
    ensures forall k :: 0 <= k < |lab| ==> cluster[k] < count
    ensures forall m :: 0 <= m < count ==> m in cluster
    ensures forall a, b :: 0 <= a < |lab| && 0 <= b < |lab| ==> (cluster[a] == cluster[b] <==> lab[a] == lab[b])
    ensures SomeShared(cluster) <==> SomeShared(lab)
    ensures Singletons(lab) ==> count == |lab| && forall k :: 0 <= k < |lab| ==> cluster[k] == k
  {
    var n := |lab|;
    var roots := RootsBelow(lab, n);
    cluster := seq(n, k requires 0 <= k < n => Rank(lab, lab[k]));
    count := |roots|;
    forall k | 0 <= k < n ensures cluster[k] < |roots| && roots[cluster[k]] == lab[k] {
      RankOfRoot(lab, lab[k]);
    }
    forall m | 0 <= m < |roots| ensures m in cluster {
      RankOfNth(lab, m);
      assert cluster[roots[m]] == m;
    }
    SameClusterSameLabel(lab, cluster, roots);
    SharedAlike(cluster, lab);
    if Singletons(lab) {
      forall k | 0 <= k < n ensures cluster[k] == k {
        RankOfSingletons(lab, k);
      }
      RankOfSingletons(lab, n);
    }
  }

  /** `Box.meldAdjacent` (reconstructed): label the boxes, number the
      clusters, and meld each cluster's boxes. Alongside the result it returns
      each box's cluster number, which is the position of its meld.

      Every box belongs to exactly one meld and is enclosed by it; every meld
      is the meld of the boxes numbered with it, of which there is at least
      one. Adjacent boxes share a meld and boxes sharing a meld are linked by
      a chain of adjacent boxes, so the melds are the connected components of
      the adjacency relation. `didMeld` holds exactly when some meld merged
      two or more boxes, which is exactly when two boxes are adjacent; when
      none are, the result is the input itself. */
  method MeldAdjacent(boxes: seq<Box>, threshold: real) returns (r: MeldResult, cluster: seq<nat>)
    requires AllValid(boxes)
    ensures |cluster| == |boxes|
    ensures forall k :: 0 <= k < |boxes| ==> cluster[k] < |r.melds|
    ensures forall m :: 0 <= m < |r.melds| ==> m in cluster
    ensures forall m :: 0 <= m < |r.melds| ==> Meld(Members(boxes, cluster, m)) == Success(r.melds[m])
    ensures forall k :: 0 <= k < |boxes| ==> Encloses(r.melds[cluster[k]], boxes[k])
    ensures forall a, b :: 0 <= a < |boxes| && 0 <= b < |boxes| && Adjacent(boxes[a], boxes[b], threshold) ==>
      cluster[a] == cluster[b]
    ensures forall a, b :: 0 <= a < |boxes| && 0 <= b < |boxes| && cluster[a] == cluster[b] ==>
      Connected(boxes, threshold, a, b)
    ensures r.didMeld <==> SomeShared(cluster)
    ensures r.didMeld <==> SomeAdjacent(boxes, threshold)
    ensures !SomeAdjacent(boxes, threshold) ==> r.melds == boxes
  {
    var lab, didMeld := Label(boxes, threshold);
    var count;
    cluster, count := NumberClusters(lab);
    var melds := MeldClusters(boxes, cluster, count);
    r := MeldResult(melds, didMeld);
    EnclosedByOwnMeld(boxes, cluster, melds);
    ClustersAreComponents(boxes, threshold, lab, cluster);
    if !didMeld {
      SingletonMelds(boxes, cluster, melds);
    }
  }

  /** Two boxes have the same cluster number exactly when they have the
      same label. */
  lemma SameClusterSameLabel(lab: seq<nat>, cluster: seq<nat>, roots: seq<nat>)
    requires IsLabelling(lab) && roots == RootsBelow(lab, |lab|) && |cluster| == |lab|
    requires forall k :: 0 <= k < |lab| ==> cluster[k] < |roots| && roots[cluster[k]] == lab[k]
    ensures forall a, b :: 0 <= a < |lab| && 0 <= b < |lab| ==> (cluster[a] == cluster[b] <==> lab[a] == lab[b])
  {
    forall a, b | 0 <= a < |lab| && 0 <= b < |lab| && lab[a] == lab[b]
      ensures cluster[a] == cluster[b]
    {
      assert roots[cluster[a]] == roots[cluster[b]];
    }
  }

  // ---------------------------------------------------------------------
  // Worked cases
  // ---------------------------------------------------------------------

  /** Two 10-by-10 boxes side by side with a gap of 10: squared distance 100,
      so at threshold 5 neither is adjacent to the other and `MeldAdjacent`
      returns them unchanged. */
  lemma GapOfTenStaysApart()
    ensures ShortestDistanceSquared(Box(Rect(0, 0, 10, 10)), Box(Rect(20, 0, 10, 10))) == 100
    ensures !SomeAdjacent([Box(Rect(0, 0, 10, 10)), Box(Rect(20, 0, 10, 10))], 5.0)
  {
    var boxes := [Box(Rect(0, 0, 10, 10)), Box(Rect(20, 0, 10, 10))];
    assert ShortestDistanceSquared(boxes[0], boxes[1]) == 100;
    DistanceSymmetric(boxes[0], boxes[1]);
  }

  /** A gap of 1 is within threshold 5. */
  lemma GapOfOneAdjacent()
    ensures SomeAdjacent([Box(Rect(0, 0, 10, 10)), Box(Rect(11, 0, 10, 10))], 5.0)
  {
    var boxes := [Box(Rect(0, 0, 10, 10)), Box(Rect(11, 0, 10, 10))];
    assert ShortestDistanceSquared(boxes[0], boxes[1]) == 1;
    assert Adjacent(boxes[0], boxes[1], 5.0);
  }

  /** The meld of two boxes a gap of 1 apart is the 21-by-10 box spanning
      both. */
  lemma GapOfOneMeld()
    ensures Meld([Box(Rect(0, 0, 10, 10)), Box(Rect(11, 0, 10, 10))]) == Success(Box(Rect(0, 0, 21, 10)))
  {
  }

  /** Overlapping boxes are at distance 0, adjacent at every positive
      threshold, and meld into the box enclosing both. */
  lemma OverlapMelds(threshold: real)
    requires threshold > 0.0
    ensures ShortestDistanceSquared(Box(Rect(0, 0, 10, 10)), Box(Rect(5, 5, 10, 10))) == 0
    ensures Adjacent(Box(Rect(0, 0, 10, 10)), Box(Rect(5, 5, 10, 10)), threshold)
    ensures Meld([Box(Rect(0, 0, 10, 10)), Box(Rect(5, 5, 10, 10))]) == Success(Box(Rect(0, 0, 15, 15)))
  {
    assert Overlap(Box(Rect(0, 0, 10, 10)), Box(Rect(5, 5, 10, 10)));
    AdjacentAndThreshold(Box(Rect(0, 0, 10, 10)), Box(Rect(5, 5, 10, 10)), threshold);
  }

  /** Diagonal boxes are measured corner to corner: the squared distance is
      `10^2 + 10^2`. */
  lemma DiagonalDistance()
    ensures ShortestDistanceSquared(Box(Rect(0, 0, 10, 10)), Box(Rect(20, 20, 10, 10))) == 200
  {
  }
}
