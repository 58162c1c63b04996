/**
 * The path sampler of the road creation system: at most one node per tick,
 * appended at the cursor once the cursor is far enough from the last node
 * (or, before the first node, from the start intersection).
 */
module Sampler {
  import opened Components

  /** The point the next node is measured from, if there is one. */
  function SampleAnchor(nodes: seq<Node>, intersections: seq<Intersection>, startIntersection: nat): (anchor: Option<Point>)
    ensures anchor.None? <==> nodes == [] && startIntersection >= |intersections|
    ensures nodes != [] ==> anchor == Some(nodes[|nodes| - 1].position)
    ensures nodes == [] && startIntersection < |intersections| ==>
      anchor == Some(intersections[startIntersection].position)
  {
    if |nodes| > 0 then Some(nodes[|nodes| - 1].position)
    else if startIntersection < |intersections| then Some(intersections[startIntersection].position)
    else None
  }

  /** The in-progress nodes after one tick of sampling. */
  function Sampled(nodes: seq<Node>, intersections: seq<Intersection>, startIntersection: nat,
                   cursor: Point, minDistSq: real): (sampled: seq<Node>)
    ensures sampled == nodes || sampled == nodes + [Node(cursor)]
    ensures sampled != nodes <==>
      var anchor := SampleAnchor(nodes, intersections, startIntersection);
      anchor.Some? && DistSq(anchor.value, cursor) >= minDistSq
  {
    match SampleAnchor(nodes, intersections, startIntersection)
    case Some(anchor) =>
      if DistSq(anchor, cursor) >= minDistSq then
        assert |nodes + [Node(cursor)]| != |nodes|;
        nodes + [Node(cursor)]
      else nodes
    case None => nodes
  }

  /** Lines 66-74, with ROAD_NODE_DISTANCE_SQ as `minDistSq`. */
  method Sample(network: Network, creator: RoadCreator, cursor: Point, minDistSq: real)
    modifies creator`currentRoadNodes
    ensures creator.currentRoadNodes ==
      Sampled(old(creator.currentRoadNodes), network.intersections, creator.startIntersection, cursor, minDistSq)
  {
    if |creator.currentRoadNodes| > 0 {
      var lastNode := creator.currentRoadNodes[|creator.currentRoadNodes| - 1];
      if DistSq(lastNode.position, cursor) >= minDistSq {
        creator.currentRoadNodes := creator.currentRoadNodes + [Node(cursor)];
      }
    } else if creator.startIntersection < |network.intersections| {
      var intersection := network.intersections[creator.startIntersection];
      if DistSq(intersection.position, cursor) >= minDistSq {
        creator.currentRoadNodes := creator.currentRoadNodes + [Node(cursor)];
      }
    }
  }

  /* ---- Sampling over many ticks ---- */

  /** The nodes recorded while the cursor visits `cursors`, one per tick. */
  function SampleRun(nodes: seq<Node>, intersections: seq<Intersection>, startIntersection: nat,
                     cursors: seq<Point>, minDistSq: real): seq<Node>
    decreases |cursors|
  {
    if cursors == [] then nodes
    else SampleRun(Sampled(nodes, intersections, startIntersection, cursors[0], minDistSq),
                   intersections, startIntersection, cursors[1..], minDistSq)
  }

  function NodesAt(points: seq<Point>): (nodes: seq<Node>)
    ensures |nodes| == |points|
    ensures forall i :: 0 <= i < |points| ==> nodes[i] == Node(points[i])
  {
    seq(|points|, i requires 0 <= i < |points| => Node(points[i]))
  }

  /** Each position is at least the spacing away from the one before it, the first from `from`. */
  ghost predicate Spaced(from: Point, cursors: seq<Point>, minDistSq: real)
    decreases |cursors|
  {
    cursors != [] ==> DistSq(from, cursors[0]) >= minDistSq && Spaced(cursors[0], cursors[1..], minDistSq)
  }

  /**
   * No node is lost: when each cursor position is at least the spacing away
   * from the previous one (the first from the anchor), every position
   * becomes a node, in order.
   */
  lemma {:induction false} SampleRunSpaced(nodes: seq<Node>, intersections: seq<Intersection>, startIntersection: nat,
                                           cursors: seq<Point>, minDistSq: real)
    requires SampleAnchor(nodes, intersections, startIntersection).Some?
    requires Spaced(SampleAnchor(nodes, intersections, startIntersection).value, cursors, minDistSq)
    ensures SampleRun(nodes, intersections, startIntersection, cursors, minDistSq) == nodes + NodesAt(cursors)
    decreases |cursors|
  {
    if cursors != [] {
      var next := nodes + [Node(cursors[0])];
      SampleRunStep(nodes, intersections, startIntersection, cursors, minDistSq);
      SampleRunSpaced(next, intersections, startIntersection, cursors[1..], minDistSq);
      NodesAtCons(cursors);
      assert next + NodesAt(cursors[1..]) == nodes + ([Node(cursors[0])] + NodesAt(cursors[1..]));
    }
  }

  /** One spaced tick: the cursor becomes the new last node and the new anchor. */
  lemma SampleRunStep(nodes: seq<Node>, intersections: seq<Intersection>, startIntersection: nat,
                      cursors: seq<Point>, minDistSq: real)
    requires cursors != [] && SampleAnchor(nodes, intersections, startIntersection).Some?
    requires Spaced(SampleAnchor(nodes, intersections, startIntersection).value, cursors, minDistSq)
    ensures SampleRun(nodes, intersections, startIntersection, cursors, minDistSq) ==
      SampleRun(nodes + [Node(cursors[0])], intersections, startIntersection, cursors[1..], minDistSq)
    ensures SampleAnchor(nodes + [Node(cursors[0])], intersections, startIntersection) == Some(cursors[0])
    ensures Spaced(cursors[0], cursors[1..], minDistSq)
  {
    assert Sampled(nodes, intersections, startIntersection, cursors[0], minDistSq) == nodes + [Node(cursors[0])];
  }

  lemma NodesAtCons(points: seq<Point>)
    requires points != []
    ensures NodesAt(points) == [Node(points[0])] + NodesAt(points[1..])
  {
    assert NodesAt(points) == [Node(points[0])] + NodesAt(points[1..]);
  }

  /** Positions all closer than the spacing to the anchor add no node. */
  lemma {:induction false} SampleRunClose(nodes: seq<Node>, intersections: seq<Intersection>, startIntersection: nat,
                                          cursors: seq<Point>, minDistSq: real)
    requires forall i :: 0 <= i < |cursors| ==>
      var anchor := SampleAnchor(nodes, intersections, startIntersection);
      anchor.Some? ==> DistSq(anchor.value, cursors[i]) < minDistSq
    ensures SampleRun(nodes, intersections, startIntersection, cursors, minDistSq) == nodes
    decreases |cursors|
  {
    if cursors != [] {
      assert Sampled(nodes, intersections, startIntersection, cursors[0], minDistSq) == nodes;
      assert forall i :: 0 <= i < |cursors[1..]| ==> cursors[1..][i] == cursors[i + 1];
      SampleRunClose(nodes, intersections, startIntersection, cursors[1..], minDistSq);
    }
  }
}
