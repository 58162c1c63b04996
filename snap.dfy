/**
 * The snap search of the road creation system: a scan over every node of
 * every road for a node within the snap radius of the cursor, with a
 * distance-based skip over far nodes, an early stop once the distance
 * rises again, and first-road-wins across roads.
 */
module IntersectionSearch {
  import opened Components

  /** The largest k with k * k <= q. */
  function IntSqrt(q: nat): (k: nat)
    ensures k * k <= q < (k + 1) * (k + 1)
  {
    if q == 0 then 0
    else
      var k := IntSqrt(q - 1);
      assert (k + 2) * (k + 2) == (k + 1) * (k + 1) + 2 * k + 3;
      if (k + 1) * (k + 1) <= q then k + 1 else k
  }

  lemma SquareMonotone(a: nat, b: nat)
    requires a <= b
    ensures a * a <= b * b
  {
    assert a * a <= a * b <= b * b;
  }

  lemma ScaleMonotone(a: real, b: real, c: real)
    requires a <= b && c > 0.0
    ensures a * c <= b * c
  {
    assert b * c - a * c == (b - a) * c;
  }

  /**
   * floor(sqrt(distanceSq / nodeDistance)): the largest k with
   * k * k * nodeDistance <= distanceSq.
   */
  function SkipRoot(distanceSq: real, nodeDistance: real): (k: nat)
    requires nodeDistance > 0.0 && distanceSq >= 0.0
    ensures (k * k) as real * nodeDistance <= distanceSq < ((k + 1) * (k + 1)) as real * nodeDistance
  {
    var k := IntSqrt((distanceSq / nodeDistance).Floor);
    ScaledBetween(distanceSq, nodeDistance, k * k, (k + 1) * (k + 1));
    k
  }

  /** Bounds on the floor of a quotient carry over to the dividend, scaled by the divisor. */
  lemma ScaledBetween(d: real, c: real, lo: int, hi: int)
    requires c > 0.0 && lo <= (d / c).Floor < hi
    ensures lo as real * c <= d < hi as real * c
  {
    var q := d / c;
    assert q * c == d;
    assert lo as real <= q < hi as real;
    ScaleMonotone(lo as real, q, c);
    assert hi as real * c - q * c == (hi as real - q) * c;
  }

  /**
   * The far-node skip: floor(sqrt(distanceSq / nodeDistance)) - 5 nodes.
   * Under the guard distanceSq > 100 * nodeDistance the square root is at
   * least 10, so the subtraction cannot go below zero and the step is at
   * least 5.
   */
  function SkipStep(distanceSq: real, nodeDistance: real): (step: nat)
    requires nodeDistance > 0.0 && distanceSq > 10.0 * 10.0 * nodeDistance
    ensures step >= 5 && step + 5 == SkipRoot(distanceSq, nodeDistance)
  {
    var k := SkipRoot(distanceSq, nodeDistance);
    RootAtLeastTen(distanceSq, nodeDistance, k);
    k - 5
  }

  lemma RootAtLeastTen(distanceSq: real, nodeDistance: real, k: nat)
    requires nodeDistance > 0.0 && distanceSq > 10.0 * 10.0 * nodeDistance
    requires distanceSq < ((k + 1) * (k + 1)) as real * nodeDistance
    ensures k >= 10
  {
    if k < 10 {
      SquareMonotone(k + 1, 10);
      ScaleMonotone(((k + 1) * (k + 1)) as real, 100.0, nodeDistance);
    }
  }

  /**
   * The scan of one road's nodes from index `n` on, given the running best
   * distance (None stands for the initial `f32::INFINITY`) and the node
   * recorded with it. The result is the node index the scan ends with.
   */
  function ScanFrom(nodes: seq<Node>, cursor: Point, nodeDistance: real, n: nat,
                    lowestDistance: Option<real>, lowestIndex: Option<nat>): (found: Option<nat>)
    requires nodeDistance > 0.0
    requires lowestIndex.Some? ==>
      && lowestIndex.value < n
      && lowestIndex.value < |nodes|
      && DistSq(nodes[lowestIndex.value].position, cursor) <= SnapRadiusSq
    ensures found.Some? ==>
      found.value < |nodes| && DistSq(nodes[found.value].position, cursor) <= SnapRadiusSq
    ensures lowestIndex.Some? ==> found.Some? && found.value >= lowestIndex.value
    ensures found.Some? && found != lowestIndex ==> n <= found.value
    decreases |nodes| - n
  {
    if n >= |nodes| then lowestIndex
    else
      var distanceSq := DistSq(nodes[n].position, cursor);
      if distanceSq > 10.0 * 10.0 * nodeDistance then
        ScanFrom(nodes, cursor, nodeDistance, n + SkipStep(distanceSq, nodeDistance), lowestDistance, lowestIndex)
      else if lowestDistance.Some? && lowestDistance.value < distanceSq then
        lowestIndex
      else if distanceSq <= SnapRadiusSq then
        ScanFrom(nodes, cursor, nodeDistance, n + 1, Some(distanceSq), Some(n))
      else
        ScanFrom(nodes, cursor, nodeDistance, n + 1, lowestDistance, lowestIndex)
  }

  /** The node a full scan of one road settles on, if any. */
  function ScanRoad(nodes: seq<Node>, cursor: Point, nodeDistance: real): (found: Option<nat>)
    requires nodeDistance > 0.0
    ensures found.Some? ==>
      found.value < |nodes| && DistSq(nodes[found.value].position, cursor) <= SnapRadiusSq
  {
    ScanFrom(nodes, cursor, nodeDistance, 0, None, None)
  }

  /** The roads from index `r` on, first road with a recorded node wins. */
  function SnapFrom(roads: seq<Road>, cursor: Point, nodeDistance: real, r: nat): (found: Option<(nat, nat)>)
    requires nodeDistance > 0.0
    ensures found.Some? ==>
      && r <= found.value.0 < |roads|
      && found.value.1 < |roads[found.value.0].nodes|
      && DistSq(roads[found.value.0].nodes[found.value.1].position, cursor) <= SnapRadiusSq
    decreases |roads| - r
  {
    if r >= |roads| then None
    else
      match ScanRoad(roads[r].nodes, cursor, nodeDistance)
      case None => SnapFrom(roads, cursor, nodeDistance, r + 1)
      case Some(n) => Some((r, n))
  }

  /** The (road, node) pair the snap search of one tick reports. */
  function Snap(roads: seq<Road>, cursor: Point, nodeDistance: real): (found: Option<(nat, nat)>)
    requires nodeDistance > 0.0
    ensures found.Some? ==>
      && found.value.0 < |roads|
      && found.value.1 < |roads[found.value.0].nodes|
      && DistSq(roads[found.value.0].nodes[found.value.1].position, cursor) <= SnapRadiusSq
  {
    SnapFrom(roads, cursor, nodeDistance, 0)
  }

  function NodeOf(candidate: Option<(nat, nat)>): Option<nat> {
    match candidate
    case None => None
    case Some((_, n)) => Some(n)
  }

  /** The nested scan of lines 79-123. */
  method SnapSearch(network: Network, cursor: Point, nodeDistance: real) returns (lowest: Option<(nat, nat)>)
    requires nodeDistance > 0.0
    ensures lowest == Snap(network.roads, cursor, nodeDistance)
    ensures lowest.Some? ==>
      && lowest.value.0 < |network.roads|
      && lowest.value.1 < |network.roads[lowest.value.0].nodes|
      && DistSq(network.roads[lowest.value.0].nodes[lowest.value.1].position, cursor) <= SnapRadiusSq
  {
    lowest := None;
    for r := 0 to |network.roads|
      invariant lowest.None?
      invariant SnapFrom(network.roads, cursor, nodeDistance, r) == Snap(network.roads, cursor, nodeDistance)
    {
      var lowestDistance: Option<real> := None;
      var lowestInternal: Option<(nat, nat)> := None;
      var road := network.roads[r];
      var n := 0;
      while n < |road.nodes|
        invariant lowestInternal.Some? ==>
          && lowestInternal.value.0 == r
          && lowestInternal.value.1 < n
          && lowestInternal.value.1 < |road.nodes|
          && DistSq(road.nodes[lowestInternal.value.1].position, cursor) <= SnapRadiusSq
        invariant ScanFrom(road.nodes, cursor, nodeDistance, n, lowestDistance, NodeOf(lowestInternal))
               == ScanRoad(road.nodes, cursor, nodeDistance)
        decreases |road.nodes| - n
      {
        var distanceSq := DistSq(road.nodes[n].position, cursor);
        if distanceSq > 10.0 * 10.0 * nodeDistance {
          n := n + SkipStep(distanceSq, nodeDistance);
          continue;
        }
        if lowestDistance.Some? && lowestDistance.value < distanceSq {
          break;
        }
        if distanceSq <= SnapRadiusSq {
          lowestDistance := Some(distanceSq);
          lowestInternal := Some((r, n));
        }
        n := n + 1;
      }
      if lowestInternal.None? {
        continue;
      }
      lowest := lowestInternal;
      break;
    }
  }

  /* ---- Snap policy ---- */

  /**
   * First road wins: the search reports road r exactly when the scan of
   * road r settles on a node and the scans of all earlier roads settle on
   * none; it reports nothing exactly when every road's scan comes up empty.
   */
  lemma {:induction false} SnapFromFirstRoadWins(roads: seq<Road>, cursor: Point, nodeDistance: real, r: nat)
    requires nodeDistance > 0.0
    ensures SnapFrom(roads, cursor, nodeDistance, r).None? <==>
      forall q :: r <= q < |roads| ==> ScanRoad(roads[q].nodes, cursor, nodeDistance).None?
    ensures SnapFrom(roads, cursor, nodeDistance, r).Some? ==>
      var (q, n) := SnapFrom(roads, cursor, nodeDistance, r).value;
      && ScanRoad(roads[q].nodes, cursor, nodeDistance) == Some(n)
      && forall p :: r <= p < q ==> ScanRoad(roads[p].nodes, cursor, nodeDistance).None?
    decreases |roads| - r
  {
    if r < |roads| && ScanRoad(roads[r].nodes, cursor, nodeDistance).None? {
      SnapFromFirstRoadWins(roads, cursor, nodeDistance, r + 1);
    }
  }

  lemma SnapFirstRoadWins(roads: seq<Road>, cursor: Point, nodeDistance: real)
    requires nodeDistance > 0.0
    ensures Snap(roads, cursor, nodeDistance).None? <==>
      forall q :: 0 <= q < |roads| ==> ScanRoad(roads[q].nodes, cursor, nodeDistance).None?
    ensures Snap(roads, cursor, nodeDistance).Some? ==>
      var (q, n) := Snap(roads, cursor, nodeDistance).value;
      && ScanRoad(roads[q].nodes, cursor, nodeDistance) == Some(n)
      && forall p :: 0 <= p < q ==> ScanRoad(roads[p].nodes, cursor, nodeDistance).None?
  {
    SnapFromFirstRoadWins(roads, cursor, nodeDistance, 0);
  }

  /** The running candidate of a scan: a node behind `n` and the distance recorded with it. */
  ghost predicate Recorded(nodes: seq<Node>, cursor: Point, n: nat, lowestDistance: Option<real>, lowestIndex: Option<nat>) {
    lowestIndex.Some? ==>
      && lowestIndex.value < n
      && lowestIndex.value < |nodes|
      && DistSq(nodes[lowestIndex.value].position, cursor) <= SnapRadiusSq
      && lowestDistance == Some(DistSq(nodes[lowestIndex.value].position, cursor))
  }

  lemma {:induction false} ScanFromLocalMinimum(nodes: seq<Node>, cursor: Point, nodeDistance: real, n: nat,
                                                lowestDistance: Option<real>, lowestIndex: Option<nat>, m: nat)
    requires nodeDistance > 0.0
    requires Recorded(nodes, cursor, n, lowestDistance, lowestIndex)
    requires lowestIndex == Some(m) ==> n == m + 1
    requires ScanFrom(nodes, cursor, nodeDistance, n, lowestDistance, lowestIndex) == Some(m)
    requires m + 1 < |nodes| && DistSq(nodes[m + 1].position, cursor) <= 10.0 * 10.0 * nodeDistance
    ensures DistSq(nodes[m + 1].position, cursor) > DistSq(nodes[m].position, cursor)
    decreases |nodes| - n
  {
    if n < |nodes| {
      var distanceSq := DistSq(nodes[n].position, cursor);
      if distanceSq > 10.0 * 10.0 * nodeDistance {
        ScanFromLocalMinimum(nodes, cursor, nodeDistance, n + SkipStep(distanceSq, nodeDistance),
                             lowestDistance, lowestIndex, m);
      } else if lowestDistance.Some? && lowestDistance.value < distanceSq {
      } else if distanceSq <= SnapRadiusSq {
        if lowestIndex == Some(m) {
          assert false;
        } else {
          ScanFromLocalMinimum(nodes, cursor, nodeDistance, n + 1, Some(distanceSq), Some(n), m);
        }
      } else {
        ScanFromLocalMinimum(nodes, cursor, nodeDistance, n + 1, lowestDistance, lowestIndex, m);
      }
    }
  }

  /**
   * Early stop and ties: when a road's scan settles on node m and the next
   * node is close enough not to be skipped, that next node is strictly
   * farther from the cursor (a node at equal distance would have replaced
   * m, so the later node wins ties).
   */
  lemma ScanLocalMinimum(nodes: seq<Node>, cursor: Point, nodeDistance: real, m: nat)
    requires nodeDistance > 0.0
    requires ScanRoad(nodes, cursor, nodeDistance) == Some(m)
    requires m + 1 < |nodes| && DistSq(nodes[m + 1].position, cursor) <= 10.0 * 10.0 * nodeDistance
    ensures DistSq(nodes[m + 1].position, cursor) > DistSq(nodes[m].position, cursor)
  {
    ScanFromLocalMinimum(nodes, cursor, nodeDistance, 0, None, None, m);
  }

  /* ---- The scan of a road no node of which is skipped ---- */

  /** No node of the road is far enough from the cursor for the far-node skip. */
  ghost predicate NoSkips(nodes: seq<Node>, cursor: Point, nodeDistance: real) {
    forall k :: 0 <= k < |nodes| ==> DistSq(nodes[k].position, cursor) <= 10.0 * 10.0 * nodeDistance
  }

  /** Node m ends the run of non-increasing distances that starts at node j. */
  ghost predicate RunEnd(nodes: seq<Node>, cursor: Point, j: nat, m: nat) {
    && j <= m < |nodes|
    && (forall k :: j <= k < m ==> DistSq(nodes[k + 1].position, cursor) <= DistSq(nodes[k].position, cursor))
    && (m + 1 == |nodes| || DistSq(nodes[m + 1].position, cursor) > DistSq(nodes[m].position, cursor))
  }

  lemma {:induction false} ScanFromRun(nodes: seq<Node>, cursor: Point, nodeDistance: real, j: nat, m: nat)
    requires nodeDistance > 0.0 && NoSkips(nodes, cursor, nodeDistance)
    requires j < |nodes| && DistSq(nodes[j].position, cursor) <= SnapRadiusSq
    ensures ScanFrom(nodes, cursor, nodeDistance, j + 1, Some(DistSq(nodes[j].position, cursor)), Some(j)) == Some(m)
        <==> RunEnd(nodes, cursor, j, m)
    decreases |nodes| - j
  {
    if j + 1 < |nodes| {
      var here, next := DistSq(nodes[j].position, cursor), DistSq(nodes[j + 1].position, cursor);
      if here < next {
        assert RunEnd(nodes, cursor, j, m) && m != j ==> next <= here;
      } else {
        ScanFromRun(nodes, cursor, nodeDistance, j + 1, m);
        assert RunEnd(nodes, cursor, j, m) ==> m != j;
      }
    }
  }

  lemma {:induction false} ScanFromBeforeFirst(nodes: seq<Node>, cursor: Point, nodeDistance: real, n: nat, f: nat)
    requires nodeDistance > 0.0 && NoSkips(nodes, cursor, nodeDistance)
    requires n <= f < |nodes| && DistSq(nodes[f].position, cursor) <= SnapRadiusSq
    requires forall k :: n <= k < f ==> DistSq(nodes[k].position, cursor) > SnapRadiusSq
    ensures ScanFrom(nodes, cursor, nodeDistance, n, None, None)
         == ScanFrom(nodes, cursor, nodeDistance, f + 1, Some(DistSq(nodes[f].position, cursor)), Some(f))
    decreases f - n
  {
    if n < f {
      ScanFromBeforeFirst(nodes, cursor, nodeDistance, n + 1, f);
    }
  }

  /**
   * With no node skipped, the scan settles on the end of the run of
   * non-increasing distances that starts at the first node within the snap
   * radius; both directions, so this pins the result down.
   */
  lemma ScanWithoutSkips(nodes: seq<Node>, cursor: Point, nodeDistance: real, f: nat, m: nat)
    requires nodeDistance > 0.0 && NoSkips(nodes, cursor, nodeDistance)
    requires f < |nodes| && DistSq(nodes[f].position, cursor) <= SnapRadiusSq
    requires forall k :: 0 <= k < f ==> DistSq(nodes[k].position, cursor) > SnapRadiusSq
    ensures ScanRoad(nodes, cursor, nodeDistance) == Some(m) <==> RunEnd(nodes, cursor, f, m)
  {
    ScanFromBeforeFirst(nodes, cursor, nodeDistance, 0, f);
    ScanFromRun(nodes, cursor, nodeDistance, f, m);
  }

  lemma {:induction false} ScanFromFindsInRange(nodes: seq<Node>, cursor: Point, nodeDistance: real, n: nat)
    requires nodeDistance > 0.0 && NoSkips(nodes, cursor, nodeDistance)
    ensures ScanFrom(nodes, cursor, nodeDistance, n, None, None).None? <==>
      forall k :: n <= k < |nodes| ==> DistSq(nodes[k].position, cursor) > SnapRadiusSq
    decreases |nodes| - n
  {
    if n < |nodes| && DistSq(nodes[n].position, cursor) > SnapRadiusSq {
      ScanFromFindsInRange(nodes, cursor, nodeDistance, n + 1);
    }
  }

  /** With no node skipped, a road's scan comes up empty exactly when no node is within the snap radius. */
  lemma ScanWithoutSkipsEmpty(nodes: seq<Node>, cursor: Point, nodeDistance: real)
    requires nodeDistance > 0.0 && NoSkips(nodes, cursor, nodeDistance)
    ensures ScanRoad(nodes, cursor, nodeDistance).None? <==>
      forall k :: 0 <= k < |nodes| ==> DistSq(nodes[k].position, cursor) > SnapRadiusSq
  {
    ScanFromFindsInRange(nodes, cursor, nodeDistance, 0);
  }

  /**
   * A road sampled at unit spacing from (0,0,0) to (5,0,0), the cursor at
   * (5,0,0.1): the search picks that road's node at (5,0,0), not the
   * first node that came within the snap radius.
   */
  lemma SnapPicksNearestNodeOnStraightRoad()
    ensures
      var nodes := [Node(Point(0.0, 0.0, 0.0)), Node(Point(1.0, 0.0, 0.0)), Node(Point(2.0, 0.0, 0.0)),
                    Node(Point(3.0, 0.0, 0.0)), Node(Point(4.0, 0.0, 0.0)), Node(Point(5.0, 0.0, 0.0))];
      Snap([Road(nodes, 0, 1, 0)], Point(5.0, 0.0, 0.1), 1.0) == Some((0, 5))
  {
    var nodes := [Node(Point(0.0, 0.0, 0.0)), Node(Point(1.0, 0.0, 0.0)), Node(Point(2.0, 0.0, 0.0)),
                  Node(Point(3.0, 0.0, 0.0)), Node(Point(4.0, 0.0, 0.0)), Node(Point(5.0, 0.0, 0.0))];
    var cursor := Point(5.0, 0.0, 0.1);
    assert DistSq(nodes[0].position, cursor) == 25.01;
    assert DistSq(nodes[1].position, cursor) == 16.01;
    assert DistSq(nodes[2].position, cursor) == 9.01;
    assert DistSq(nodes[3].position, cursor) == 4.01;
    assert DistSq(nodes[4].position, cursor) == 1.01;
    assert DistSq(nodes[5].position, cursor) == 0.01;
    ScanWithoutSkips(nodes, cursor, 1.0, 2, 5);
  }

  /**
   * The far-node skip can step over a node under the cursor: on a road
   * with a node 11 units away followed by a node at the cursor, the first
   * node's skip of at least 5 leaves the road, so the search reports
   * nothing although node 1 is at distance 0.
   */
  lemma SnapCanStepOverNearNode()
    ensures
      var nodes := [Node(Point(11.0, 0.0, 0.0)), Node(Point(0.0, 0.0, 0.0))];
      && DistSq(nodes[1].position, Point(0.0, 0.0, 0.0)) == 0.0
      && Snap([Road(nodes, 0, 1, 0)], Point(0.0, 0.0, 0.0), 1.0) == None
  {
    var nodes := [Node(Point(11.0, 0.0, 0.0)), Node(Point(0.0, 0.0, 0.0))];
    var cursor := Point(0.0, 0.0, 0.0);
    assert DistSq(nodes[0].position, cursor) == 121.0;
    assert ScanRoad(nodes, cursor, 1.0) == None;
  }
}
