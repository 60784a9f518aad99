/**
 * Ramer-Douglas-Peucker simplification (`simplifyPolygon` of
 * cpp/spatial/polygon_ops.cpp), for whatever distance of a point from a segment.
 */
module Simplify {
  import opened Geometry

  type Distance = (Point, Point, Point) -> real

  // ----- the farthest vertex

  /** The largest distance of the vertices between start and i from the segment, and the first vertex that has it. */
  function Farthest(vs: seq<Point>, dist: Distance, start: nat, end: nat, i: nat): (r: (real, nat))
    requires start < i <= end < |vs|
    ensures r.0 >= 0.0 && start <= r.1 < i
    decreases i
  {
    if i == start + 1 then (0.0, start)
    else
      var (d, m) := Farthest(vs, dist, start, end, i - 1);
      var here := dist(vs[i - 1], vs[start], vs[end]);
      if here > d then (here, i - 1) else (d, m)
  }

  lemma {:induction false} FarthestBounds(vs: seq<Point>, dist: Distance, start: nat, end: nat, i: nat, k: nat)
    requires start < i <= end < |vs| && start < k < i
    ensures dist(vs[k], vs[start], vs[end]) <= Farthest(vs, dist, start, end, i).0
    decreases i
  {
    if k < i - 1 { FarthestBounds(vs, dist, start, end, i - 1, k); }
  }

  /** The split makes both halves smaller exactly when some vertex in between is off the segment. */
  lemma {:induction false} SplitShrinks(vs: seq<Point>, dist: Distance, start: nat, end: nat, i: nat)
    requires start < i <= end < |vs|
    ensures var (d, m) := Farthest(vs, dist, start, end, i);
      && (m > start <==> d > 0.0)
      && (m > start <==> exists k :: start < k < i && dist(vs[k], vs[start], vs[end]) > 0.0)
    decreases i
  {
    if i > start + 1 {
      SplitShrinks(vs, dist, start, end, i - 1);
      var here := dist(vs[i - 1], vs[start], vs[end]);
      var d := Farthest(vs, dist, start, end, i - 1).0;
      if here > d {
        assert start < i - 1 < i && dist(vs[i - 1], vs[start], vs[end]) > 0.0;
      }
    }
  }

  /** The farthest vertex is off the segment by the distance found, farther than every vertex before it, and none is farther. */
  ghost predicate FirstFarthest(vs: seq<Point>, dist: Distance, start: nat, m: nat, end: nat, i: nat)
  {
    && start < m < i <= end < |vs|
    && (forall k :: start < k < i ==> dist(vs[k], vs[start], vs[end]) <= dist(vs[m], vs[start], vs[end]))
    && (forall k :: start < k < m ==> dist(vs[k], vs[start], vs[end]) < dist(vs[m], vs[start], vs[end]))
  }

  lemma {:induction false} FarthestIsFirst(vs: seq<Point>, dist: Distance, start: nat, end: nat, i: nat)
    requires start < i <= end < |vs|
    ensures var (d, m) := Farthest(vs, dist, start, end, i);
      m > start ==> FirstFarthest(vs, dist, start, m, end, i) && dist(vs[m], vs[start], vs[end]) == d
    decreases i
  {
    if i > start + 1 {
      FarthestIsFirst(vs, dist, start, end, i - 1);
      var (d, m) := Farthest(vs, dist, start, end, i - 1);
      forall k | start < k < i - 1 ensures dist(vs[k], vs[start], vs[end]) <= d { FarthestBounds(vs, dist, start, end, i - 1, k); }
    }
  }

  /** A negative tolerance splits a straight run at its own start, so that the second half is the whole run again. */
  lemma NegativeToleranceRepeats(vs: seq<Point>, dist: Distance, epsilon: real, start: nat, end: nat)
    requires start + 2 <= end < |vs| && epsilon < 0.0
    requires forall k :: start < k < end ==> dist(vs[k], vs[start], vs[end]) <= 0.0
    ensures var (d, m) := Farthest(vs, dist, start, end, end); d > epsilon && m == start
  {
    SplitShrinks(vs, dist, start, end, end);
  }

  /** Every split that the recursion makes on a run is inside its run; by EndsIff, the recursion comes to an end. */
  predicate Ends(vs: seq<Point>, dist: Distance, epsilon: real, start: nat, end: nat)
    requires start < end < |vs|
    decreases end - start
  {
    if end - start < 2 then true
    else
      var (d, m) := Farthest(vs, dist, start, end, end);
      d <= epsilon || (m > start && Ends(vs, dist, epsilon, start, m) && Ends(vs, dist, epsilon, m, end))
  }

  lemma {:induction false} ToleranceEnds(vs: seq<Point>, dist: Distance, epsilon: real, start: nat, end: nat)
    requires epsilon >= 0.0 && start < end < |vs|
    ensures Ends(vs, dist, epsilon, start, end)
    decreases end - start
  {
    var (d, m) := Farthest(vs, dist, start, end, end);
    if end - start >= 2 && d > epsilon {
      SplitShrinks(vs, dist, start, end, end);
      ToleranceEnds(vs, dist, epsilon, start, m);
      ToleranceEnds(vs, dist, epsilon, m, end);
    }
  }

  /** The recursion as it is written, cut off at a depth: whether every call is answered above that depth. */
  predicate Answered(vs: seq<Point>, dist: Distance, epsilon: real, start: nat, end: nat, depth: nat)
    requires start <= end < |vs|
    decreases depth
  {
    depth > 0 && (
      end - start < 2 ||
      var (d, m) := Farthest(vs, dist, start, end, end);
      d <= epsilon || (Answered(vs, dist, epsilon, start, m, depth - 1) && Answered(vs, dist, epsilon, m, end, depth - 1)))
  }

  lemma {:induction false} AnsweredDeeper(vs: seq<Point>, dist: Distance, epsilon: real, start: nat, end: nat, k: nat, depth: nat)
    requires start <= end < |vs| && Answered(vs, dist, epsilon, start, end, k) && k <= depth
    ensures Answered(vs, dist, epsilon, start, end, depth)
    decreases k
  {
    if end - start >= 2 {
      var (d, m) := Farthest(vs, dist, start, end, end);
      if d > epsilon {
        AnsweredDeeper(vs, dist, epsilon, start, m, k - 1, depth - 1);
        AnsweredDeeper(vs, dist, epsilon, m, end, k - 1, depth - 1);
      }
    }
  }

  lemma {:induction false} EndsIsAnswered(vs: seq<Point>, dist: Distance, epsilon: real, start: nat, end: nat)
    requires start < end < |vs| && Ends(vs, dist, epsilon, start, end)
    ensures Answered(vs, dist, epsilon, start, end, end - start)
    decreases end - start
  {
    if end - start >= 2 {
      var (d, m) := Farthest(vs, dist, start, end, end);
      if d > epsilon {
        EndsIsAnswered(vs, dist, epsilon, start, m);
        EndsIsAnswered(vs, dist, epsilon, m, end);
        AnsweredDeeper(vs, dist, epsilon, start, m, m - start, end - start - 1);
        AnsweredDeeper(vs, dist, epsilon, m, end, end - m, end - start - 1);
      }
    }
  }

  lemma {:induction false} AnsweredEnds(vs: seq<Point>, dist: Distance, epsilon: real, start: nat, end: nat, depth: nat)
    requires start < end < |vs| && Answered(vs, dist, epsilon, start, end, depth)
    ensures Ends(vs, dist, epsilon, start, end)
    decreases depth
  {
    if end - start >= 2 {
      var (d, m) := Farthest(vs, dist, start, end, end);
      if d > epsilon {
        AnsweredEnds(vs, dist, epsilon, m, end, depth - 1);
        if m > start { AnsweredEnds(vs, dist, epsilon, start, m, depth - 1); }
      }
    }
  }

  ghost predicate ComesToAnEnd(vs: seq<Point>, dist: Distance, epsilon: real, start: nat, end: nat)
    requires start <= end < |vs|
  {
    exists depth: nat :: Answered(vs, dist, epsilon, start, end, depth)
  }

  /** For each input, the recursion comes to an end if and only if every split it makes is inside its run. */
  lemma EndsIff(vs: seq<Point>, dist: Distance, epsilon: real, start: nat, end: nat)
    requires start < end < |vs|
    ensures ComesToAnEnd(vs, dist, epsilon, start, end) <==> Ends(vs, dist, epsilon, start, end)
  {
    if Ends(vs, dist, epsilon, start, end) {
      EndsIsAnswered(vs, dist, epsilon, start, end);
    } else if ComesToAnEnd(vs, dist, epsilon, start, end) {
      var depth: nat :| Answered(vs, dist, epsilon, start, end, depth);
      AnsweredEnds(vs, dist, epsilon, start, end, depth);
    }
  }

  ghost predicate EndsForAll(dist: Distance, epsilon: real) {
    forall vs: seq<Point> :: |vs| > 2 ==> ComesToAnEnd(vs, dist, epsilon, 0, |vs| - 1)
  }

  /** Every polygon is simplified if and only if the tolerance is not negative, when some point is no distance from itself. */
  lemma EndsForAllIff(dist: Distance, epsilon: real, p: Point)
    requires dist(p, p, p) <= 0.0
    ensures EndsForAll(dist, epsilon) <==> epsilon >= 0.0
  {
    if epsilon >= 0.0 {
      forall vs: seq<Point> | |vs| > 2 ensures ComesToAnEnd(vs, dist, epsilon, 0, |vs| - 1) {
        ToleranceEnds(vs, dist, epsilon, 0, |vs| - 1);
        EndsIff(vs, dist, epsilon, 0, |vs| - 1);
      }
    } else {
      var vs := [p, p, p];
      NegativeToleranceRepeats(vs, dist, epsilon, 0, 2);
      EndsIff(vs, dist, epsilon, 0, |vs| - 1);
      assert !ComesToAnEnd(vs, dist, epsilon, 0, |vs| - 1);
    }
  }

  // ----- the vertices that are kept

  /** Which vertices the recursion keeps, that at `end` left to the next run. */
  function Kept(vs: seq<Point>, dist: Distance, epsilon: real, start: nat, end: nat): seq<nat>
    requires start < end < |vs| && Ends(vs, dist, epsilon, start, end)
    decreases end - start
  {
    if end - start < 2 then [start]
    else
      var (d, m) := Farthest(vs, dist, start, end, end);
      if d > epsilon then Kept(vs, dist, epsilon, start, m) + Kept(vs, dist, epsilon, m, end) else [start]
  }

  /** Each vertex between a and b is within the tolerance of the segment that joins them. */
  ghost predicate Gap(vs: seq<Point>, dist: Distance, epsilon: real, a: nat, b: nat) {
    a < b < |vs| && forall k :: a < k < b ==> dist(vs[k], vs[a], vs[b]) <= epsilon
  }

  ghost predicate Chain(vs: seq<Point>, dist: Distance, epsilon: real, ks: seq<nat>) {
    forall j {:trigger ks[j]} :: 0 <= j < |ks| - 1 ==> Gap(vs, dist, epsilon, ks[j], ks[j + 1])
  }

  ghost predicate Simplifies(vs: seq<Point>, dist: Distance, epsilon: real, start: nat, end: nat, ks: seq<nat>) {
    |ks| > 0 && ks[0] == start && Chain(vs, dist, epsilon, ks + [end])
  }

  lemma JoinSimplified(
    vs: seq<Point>, dist: Distance, epsilon: real, start: nat, m: nat, end: nat, left: seq<nat>, right: seq<nat>)
    requires Simplifies(vs, dist, epsilon, start, m, left) && Simplifies(vs, dist, epsilon, m, end, right)
    ensures Simplifies(vs, dist, epsilon, start, end, left + right)
  {
    var all, a, b := left + right + [end], left + [m], right + [end];
    forall j | 0 <= j < |all| - 1 ensures Gap(vs, dist, epsilon, all[j], all[j + 1]) {
      if j < |left| {
        assert Gap(vs, dist, epsilon, a[j], a[j + 1]);
      } else {
        assert Gap(vs, dist, epsilon, b[j - |left|], b[j - |left| + 1]);
      }
    }
  }

  lemma {:induction false} KeptSimplifies(vs: seq<Point>, dist: Distance, epsilon: real, start: nat, end: nat)
    requires start < end < |vs| && Ends(vs, dist, epsilon, start, end)
    ensures Simplifies(vs, dist, epsilon, start, end, Kept(vs, dist, epsilon, start, end))
    decreases end - start
  {
    var (d, m) := Farthest(vs, dist, start, end, end);
    if end - start >= 2 && d > epsilon {
      KeptSimplifies(vs, dist, epsilon, start, m);
      KeptSimplifies(vs, dist, epsilon, m, end);
      JoinSimplified(vs, dist, epsilon, start, m, end, Kept(vs, dist, epsilon, start, m), Kept(vs, dist, epsilon, m, end));
    } else {
      forall k | start < k < end ensures dist(vs[k], vs[start], vs[end]) <= epsilon {
        FarthestBounds(vs, dist, start, end, end, k);
      }
    }
  }

  // ----- what is dropped

  /** A run is dropped but for its start exactly when the tolerance allows it. */
  lemma DroppedIff(vs: seq<Point>, dist: Distance, epsilon: real, start: nat, end: nat)
    requires start < end < |vs| && Ends(vs, dist, epsilon, start, end)
    ensures Kept(vs, dist, epsilon, start, end) == [start] <==>
            end == start + 1 || (epsilon >= 0.0 && forall k :: start < k < end ==> dist(vs[k], vs[start], vs[end]) <= epsilon)
  {
    if end - start >= 2 {
      var (d, m) := Farthest(vs, dist, start, end, end);
      SplitShrinks(vs, dist, start, end, end);
      FarthestIsFirst(vs, dist, start, end, end);
      forall k | start < k < end ensures dist(vs[k], vs[start], vs[end]) <= d { FarthestBounds(vs, dist, start, end, end, k); }
      if d > epsilon {
        KeptStarts(vs, dist, epsilon, start, m);
        KeptStarts(vs, dist, epsilon, m, end);
      }
    }
  }

  lemma {:induction false} KeptStarts(vs: seq<Point>, dist: Distance, epsilon: real, start: nat, end: nat)
    requires start < end < |vs| && Ends(vs, dist, epsilon, start, end)
    ensures var ks := Kept(vs, dist, epsilon, start, end); ks != [] && ks[0] == start
    decreases end - start
  {
    var (d, m) := Farthest(vs, dist, start, end, end);
    if end - start >= 2 && d > epsilon { KeptStarts(vs, dist, epsilon, start, m); }
  }

  /** Vertex ks[j] is kept for being the first of the farthest, and beyond the tolerance, between ks[a] and ks[b]. */
  ghost predicate KeptFor(vs: seq<Point>, dist: Distance, epsilon: real, ks: seq<nat>, a: nat, j: nat, b: nat) {
    && a < j < b < |ks| && ks[b] < |vs|
    && FirstFarthest(vs, dist, ks[a], ks[j], ks[b], ks[b])
    && dist(vs[ks[j]], vs[ks[a]], vs[ks[b]]) > epsilon
  }

  ghost predicate HasReason(vs: seq<Point>, dist: Distance, epsilon: real, ks: seq<nat>, j: nat) {
    exists a: nat, b: nat :: KeptFor(vs, dist, epsilon, ks, a, j, b)
  }

  ghost predicate AllNeeded(vs: seq<Point>, dist: Distance, epsilon: real, ks: seq<nat>) {
    forall j :: 0 < j < |ks| - 1 ==> HasReason(vs, dist, epsilon, ks, j)
  }

  /** A reason stands when more vertices are kept before and after. */
  lemma ReasonStands(vs: seq<Point>, dist: Distance, epsilon: real, front: seq<nat>, ks: seq<nat>, back: seq<nat>, j: nat, c: nat)
    requires HasReason(vs, dist, epsilon, ks, j) && c == |front| + j
    ensures HasReason(vs, dist, epsilon, front + ks + back, c)
  {
    var a: nat, b: nat :| KeptFor(vs, dist, epsilon, ks, a, j, b);
    var all, n := front + ks + back, |front|;
    assert all[n + a] == ks[a] && all[c] == ks[j] && all[n + b] == ks[b];
    assert KeptFor(vs, dist, epsilon, all, n + a, c, n + b);
  }

  lemma JoinNeeded(vs: seq<Point>, dist: Distance, epsilon: real, m: nat, end: nat, left: seq<nat>, right: seq<nat>, all: seq<nat>)
    requires left != [] && right != [] && right[0] == m && all == left + right + [end]
    requires AllNeeded(vs, dist, epsilon, left + [m]) && AllNeeded(vs, dist, epsilon, right + [end])
    requires KeptFor(vs, dist, epsilon, all, 0, |left|, |all| - 1)
    ensures AllNeeded(vs, dist, epsilon, all)
  {
    forall j | 0 < j < |all| - 1 ensures HasReason(vs, dist, epsilon, all, j) {
      if j < |left| {
        assert all == [] + (left + [m]) + (right[1..] + [end]);
        ReasonStands(vs, dist, epsilon, [], left + [m], right[1..] + [end], j, j);
      } else if j > |left| {
        assert all == left + (right + [end]) + [];
        ReasonStands(vs, dist, epsilon, left, right + [end], [], j - |left|, j);
      }
    }
  }

  /** Every vertex kept between the ends is kept for a reason. */
  lemma {:induction false} KeptNeeded(vs: seq<Point>, dist: Distance, epsilon: real, start: nat, end: nat)
    requires start < end < |vs| && Ends(vs, dist, epsilon, start, end)
    ensures AllNeeded(vs, dist, epsilon, Kept(vs, dist, epsilon, start, end) + [end])
    decreases end - start
  {
    var (d, m) := Farthest(vs, dist, start, end, end);
    if end - start >= 2 && d > epsilon {
      var left, right := Kept(vs, dist, epsilon, start, m), Kept(vs, dist, epsilon, m, end);
      KeptNeeded(vs, dist, epsilon, start, m);
      KeptNeeded(vs, dist, epsilon, m, end);
      KeptStarts(vs, dist, epsilon, start, m);
      KeptStarts(vs, dist, epsilon, m, end);
      FarthestIsFirst(vs, dist, start, end, end);
      var all := left + right + [end];
      assert all[0] == start && all[|left|] == m && all[|all| - 1] == end;
      JoinNeeded(vs, dist, epsilon, m, end, left, right, all);
    }
  }

  // ----- the code

  predicate InRange(vs: seq<Point>, ks: seq<nat>) {
    forall j :: 0 <= j < |ks| ==> ks[j] < |vs|
  }

  function Pick(vs: seq<Point>, ks: seq<nat>): (ps: seq<Point>)
    requires InRange(vs, ks)
    ensures |ps| == |ks|
  {
    seq(|ks|, i requires 0 <= i < |ks| => vs[ks[i]])
  }

  lemma PickJoin(vs: seq<Point>, a: seq<nat>, b: seq<nat>)
    requires InRange(vs, a) && InRange(vs, b)
    ensures InRange(vs, a + b) && Pick(vs, a + b) == Pick(vs, a) + Pick(vs, b)
  {
  }

  method FindFarthest(vs: seq<Point>, dist: Distance, start: nat, end: nat) returns (maxDist: real, maxIdx: nat)
    requires start < end < |vs|
    ensures (maxDist, maxIdx) == Farthest(vs, dist, start, end, end)
  {
    maxDist, maxIdx := 0.0, start;
    for i := start + 1 to end
      invariant (maxDist, maxIdx) == Farthest(vs, dist, start, end, i)
    {
      var d := dist(vs[i], vs[start], vs[end]);
      if d > maxDist { maxDist, maxIdx := d, i; }
    }
  }

  /** The recursion `rdp`, and the places of the vertices it returns. */
  method Rdp(vs: seq<Point>, dist: Distance, epsilon: real, start: nat, end: nat) returns (ps: seq<Point>, ghost ks: seq<nat>)
    requires start < end < |vs| && Ends(vs, dist, epsilon, start, end)
    ensures ks == Kept(vs, dist, epsilon, start, end)
    ensures InRange(vs, ks) && ps == Pick(vs, ks)
    decreases end - start
  {
    if end - start < 2 { return [vs[start]], [start]; }
    var maxDist, maxIdx := FindFarthest(vs, dist, start, end);
    if maxDist > epsilon {
      var left, leftKs := Rdp(vs, dist, epsilon, start, maxIdx);
      var right, rightKs := Rdp(vs, dist, epsilon, maxIdx, end);
      PickJoin(vs, leftKs, rightKs);
      return left + right, leftKs + rightKs;
    }
    return [vs[start]], [start];
  }

  /** A choice of the vertices, in order, with the first and the last, that stays within the tolerance of all and has no other without need. */
  ghost predicate Simplified(vs: seq<Point>, dist: Distance, epsilon: real, ks: seq<nat>, ps: seq<Point>) {
    && |ks| >= 2 && ks[0] == 0 && ks[|ks| - 1] == |vs| - 1
    && InRange(vs, ks)
    && Chain(vs, dist, epsilon, ks) && AllNeeded(vs, dist, epsilon, ks)
    && ps == Pick(vs, ks)
  }

  /** The vertices that are kept are in their order. */
  lemma {:induction false} ChainIncreases(vs: seq<Point>, dist: Distance, epsilon: real, ks: seq<nat>, i: nat, j: nat)
    requires Chain(vs, dist, epsilon, ks) && i < j < |ks|
    ensures ks[i] < ks[j]
    decreases j
  {
    assert Gap(vs, dist, epsilon, ks[j - 1], ks[j - 1 + 1]);
    if i < j - 1 { ChainIncreases(vs, dist, epsilon, ks, i, j - 1); }
  }

  lemma WithLast(vs: seq<Point>, dist: Distance, epsilon: real, ks: seq<nat>, ps: seq<Point>)
    requires |vs| > 2 && Simplifies(vs, dist, epsilon, 0, |vs| - 1, ks) && AllNeeded(vs, dist, epsilon, ks + [|vs| - 1])
    requires InRange(vs, ks) && ps == Pick(vs, ks)
    ensures Simplified(vs, dist, epsilon, ks + [|vs| - 1], ps + [vs[|vs| - 1]])
  {
    PickJoin(vs, ks, [|vs| - 1]);
  }

  /** Every vertex between the first and the last is within the tolerance of the segment that joins them. */
  ghost predicate Straight(vs: seq<Point>, dist: Distance, epsilon: real)
    requires |vs| > 2
  {
    epsilon >= 0.0 && forall k :: 0 < k < |vs| - 1 ==> dist(vs[k], vs[0], vs[|vs| - 1]) <= epsilon
  }

  lemma OnlyFirst(vs: seq<Point>, ks: seq<nat>, ps: seq<Point>)
    requires |vs| > 2 && ks != [] && ks[0] == 0 && InRange(vs, ks) && ps == Pick(vs, ks)
    ensures ps + [vs[|vs| - 1]] == [vs[0], vs[|vs| - 1]] <==> ks == [0]
  {
    if ps + [vs[|vs| - 1]] == [vs[0], vs[|vs| - 1]] { assert |ps + [vs[|vs| - 1]]| == 2; }
  }

  /** `simplifyPolygon`, where its recursion ends; by EndsForAllIff, for every polygon when the tolerance is not negative. */
  method SimplifyPolygon(vs: seq<Point>, dist: Distance, epsilon: real) returns (ps: seq<Point>, ghost ks: seq<nat>)
    requires |vs| > 2 ==> Ends(vs, dist, epsilon, 0, |vs| - 1)
    ensures |vs| <= 2 ==> ps == vs
    ensures |vs| > 2 ==> Simplified(vs, dist, epsilon, ks, ps)
    ensures |vs| > 2 ==> (ps == [vs[0], vs[|vs| - 1]] <==> Straight(vs, dist, epsilon))
  {
    if |vs| <= 2 { return vs, []; }
    ps, ks := Rdp(vs, dist, epsilon, 0, |vs| - 1);
    KeptSimplifies(vs, dist, epsilon, 0, |vs| - 1);
    KeptNeeded(vs, dist, epsilon, 0, |vs| - 1);
    DroppedIff(vs, dist, epsilon, 0, |vs| - 1);
    OnlyFirst(vs, ks, ps);
    WithLast(vs, dist, epsilon, ks, ps);
    ps, ks := ps + [vs[|vs| - 1]], ks + [|vs| - 1];
  }
}
