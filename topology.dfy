/**
 * The two structural edits of the road creation system: the split
 * transaction, which cuts a road at a snapped node and ends the in-progress
 * road there, and the commit transaction, which ends the in-progress road
 * at a new intersection under the cursor.
 */
module Topology {
  import opened Components

  /** `Vec::remove(i)`: element i leaves and every later element moves down by one. */
  function RemoveAt<T>(s: seq<T>, i: nat): (t: seq<T>)
    requires i < |s|
    ensures |t| == |s| - 1
    ensures forall k :: 0 <= k < i ==> t[k] == s[k]
    ensures forall k :: i <= k < |t| ==> t[k] == s[k + 1]
  {
    s[..i] + s[i + 1..]
  }

  /* ---- Split transaction (lines 134-188) ---- */

  /** The state after splitting road r at node n. */
  function SplitAt(s: EditorState, r: nat, n: nat): (t: EditorState)
    requires r < |s.roads| && n < |s.roads[r].nodes|
    ensures |t.intersections| == |s.intersections| + 1
    ensures t.intersections[..|s.intersections|] == s.intersections
    ensures t.intersections[|s.intersections|] == Intersection(s.roads[r].nodes[n].position, {})
    ensures |t.roads| == |s.roads| + 2
    ensures forall k :: 0 <= k < r ==> t.roads[k] == s.roads[k]
    ensures forall k :: r < k < |s.roads| ==> t.roads[k - 1] == s.roads[k]
    ensures
      var first, second, current := t.roads[|s.roads| - 1], t.roads[|s.roads|], t.roads[|s.roads| + 1];
      && |first.nodes| == n
      && first.nodes + second.nodes == s.roads[r].nodes
      && current.nodes == s.currentRoadNodes
      && first.intersectionStart == second.intersectionStart == current.intersectionStart
         == s.roads[r].intersectionStart
      && first.intersectionEnd == second.intersectionEnd == current.intersectionEnd
         == |s.intersections|
      && first.meshEntity == s.nextEntity && second.meshEntity == s.nextEntity + 1
      && current.meshEntity == s.nextEntity + 2
    ensures t.currentRoadNodes == [] && t.startIntersection == |s.intersections| && !t.canCreateIntersection
    ensures t.nextEntity == s.nextEntity + 3
    ensures t.liveEntities ==
      s.liveEntities + {s.nextEntity, s.nextEntity + 1, s.nextEntity + 2} - {s.roads[r].meshEntity}
  {
    var road := s.roads[r];
    var newIntersection := |s.intersections|;
    var first := Road(road.nodes[..n], road.intersectionStart, newIntersection, s.nextEntity);
    var second := Road(road.nodes[n..], road.intersectionStart, newIntersection, s.nextEntity + 1);
    var current := Road(s.currentRoadNodes, road.intersectionStart, newIntersection, s.nextEntity + 2);
    assert first.nodes + second.nodes == road.nodes;
    EditorState(
      RemoveAt(s.roads + [first, second, current], r),
      s.intersections + [Intersection(road.nodes[n].position, {})],
      [], newIntersection, false,
      s.nextEntity + 3,
      s.liveEntities + {s.nextEntity, s.nextEntity + 1, s.nextEntity + 2} - {road.meshEntity})
  }

  method Split(network: Network, creator: RoadCreator, world: EntityStore, r: nat, n: nat)
    requires r < |network.roads| && n < |network.roads[r].nodes|
    modifies network, creator, world
    ensures Snapshot(network, creator, world) == SplitAt(old(Snapshot(network, creator, world)), r, n)
  {
    ghost var s := Snapshot(network, creator, world);
    var road := network.roads[r];
    network.intersections := network.intersections + [Intersection(road.nodes[n].position, {})];
    var newIntersection := |network.intersections| - 1;

    var mesh := world.Spawn();
    var first := Road(road.nodes[..n], road.intersectionStart, newIntersection, mesh);
    network.roads := network.roads + [first];
    mesh := world.Spawn();
    var second := Road(road.nodes[n..], road.intersectionStart, newIntersection, mesh);
    network.roads := network.roads + [second];
    mesh := world.Spawn();
    var current := Road(creator.currentRoadNodes, road.intersectionStart, newIntersection, mesh);
    network.roads := network.roads + [current];
    assert network.roads == old(network.roads) + [first, second, current];

    creator.currentRoadNodes := [];
    creator.startIntersection := newIntersection;
    creator.canCreateIntersection := false;

    world.Despawn(road.meshEntity);
    network.roads := RemoveAt(network.roads, r);

    ghost var t := SplitAt(s, r, n);
    assert [first, second, current] == [t.roads[|s.roads| - 1], t.roads[|s.roads|], t.roads[|s.roads| + 1]];
    assert network.roads == t.roads;
  }

  /* ---- Commit transaction (lines 194-225) ---- */

  /** `roads` of an intersection with one more (road, cap) entry, as `HashSet::insert`. */
  function Register(intersection: Intersection, road: nat, cap: RoadCap): (i: Intersection)
    ensures i.position == intersection.position
    ensures i.roads == intersection.roads + {(road, cap)}
  {
    intersection.(roads := intersection.roads + {(road, cap)})
  }

  /** The state after committing the in-progress road at the cursor. */
  function CommitAt(s: EditorState, cursor: Point): (t: EditorState)
    requires s.startIntersection <= |s.intersections|
    ensures |t.roads| == |s.roads| + 1 && t.roads[..|s.roads|] == s.roads
    ensures t.roads[|s.roads|] == Road(s.currentRoadNodes, s.startIntersection, |s.intersections|, s.nextEntity)
    ensures |t.intersections| == |s.intersections| + 1
    ensures t.intersections[|s.intersections|].position == cursor
    ensures t.intersections[|s.intersections|].roads ==
      {(|s.roads|, End)} + (if s.startIntersection == |s.intersections| then {(|s.roads|, Start)} else {})
    ensures s.startIntersection < |s.intersections| ==>
      t.intersections[s.startIntersection] == Register(s.intersections[s.startIntersection], |s.roads|, Start)
    ensures forall i :: 0 <= i < |s.intersections| && i != s.startIntersection ==>
      t.intersections[i] == s.intersections[i]
    ensures t.currentRoadNodes == [] && t.startIntersection == |s.intersections|
    ensures t.canCreateIntersection == s.canCreateIntersection
    ensures t.nextEntity == s.nextEntity + 1 && t.liveEntities == s.liveEntities + {s.nextEntity}
  {
    var k := |s.roads|;
    var newIntersection := |s.intersections|;
    var grown := s.intersections + [Intersection(cursor, {(k, End)})];
    EditorState(
      s.roads + [Road(s.currentRoadNodes, s.startIntersection, newIntersection, s.nextEntity)],
      grown[s.startIntersection := Register(grown[s.startIntersection], k, Start)],
      [], newIntersection, s.canCreateIntersection,
      s.nextEntity + 1, s.liveEntities + {s.nextEntity})
  }

  method Commit(network: Network, creator: RoadCreator, world: EntityStore, cursor: Point)
    requires creator.startIntersection <= |network.intersections|
    modifies network, creator, world
    ensures Snapshot(network, creator, world) == CommitAt(old(Snapshot(network, creator, world)), cursor)
  {
    network.intersections := network.intersections + [Intersection(cursor, {})];

    var mesh := world.Spawn();
    var road := Road(creator.currentRoadNodes, creator.startIntersection, |network.intersections| - 1, mesh);
    network.roads := network.roads + [road];

    var roadCount := |network.roads| - 1;
    var last := |network.intersections| - 1;
    assert {} + {(roadCount, End)} == {(roadCount, End)};
    network.intersections := network.intersections[last := Register(network.intersections[last], roadCount, End)];
    assert network.intersections == old(network.intersections) + [Intersection(cursor, {(roadCount, End)})];
    var start := creator.startIntersection;
    network.intersections := network.intersections[start := Register(network.intersections[start], roadCount, Start)];

    creator.currentRoadNodes := [];
    creator.startIntersection := |network.intersections| - 1;
  }

  /* ---- What the transactions keep ---- */

  /** After a split every road endpoint and the session start still name live intersections. */
  lemma SplitKeepsEndpointsLive(s: EditorState, r: nat, n: nat)
    requires r < |s.roads| && n < |s.roads[r].nodes|
    requires EndpointsLive(s)
    ensures EndpointsLive(SplitAt(s, r, n))
  {
    var t := SplitAt(s, r, n);
    forall i | 0 <= i < |t.roads|
      ensures t.roads[i].intersectionStart < |t.intersections| && t.roads[i].intersectionEnd < |t.intersections|
    {
      if i < r {
        assert t.roads[i] == s.roads[i];
      } else if i < |s.roads| - 1 {
        assert t.roads[i] == s.roads[i + 1];
      }
    }
  }

  /** After a commit every road endpoint and the session start still name live intersections. */
  lemma CommitKeepsEndpointsLive(s: EditorState, cursor: Point)
    requires EndpointsLive(s)
    ensures EndpointsLive(CommitAt(s, cursor))
  {
    var t := CommitAt(s, cursor);
    forall i | 0 <= i < |t.roads|
      ensures t.roads[i].intersectionStart < |t.intersections| && t.roads[i].intersectionEnd < |t.intersections|
    {
      if i < |s.roads| {
        assert t.roads[i] == t.roads[..|s.roads|][i] == s.roads[i];
      }
    }
  }

  /** A commit keeps every intersection's `roads` set in step with the roads. */
  lemma CommitKeepsAdjacency(s: EditorState, cursor: Point)
    requires s.startIntersection <= |s.intersections|
    requires AdjacencyConsistent(s)
    ensures AdjacencyConsistent(CommitAt(s, cursor))
  {
    var t := CommitAt(s, cursor);
    var k := |s.roads|;
    assert forall j :: 0 <= j < k ==> t.roads[j] == t.roads[..k][j] == s.roads[j];
    forall i, entry | 0 <= i < |t.intersections| && entry in t.intersections[i].roads
      ensures entry.0 < |t.roads|
      ensures entry.1 == Start ==> t.roads[entry.0].intersectionStart == i
      ensures entry.1 == End ==> t.roads[entry.0].intersectionEnd == i
    {
      if entry.0 != k {
        assert i < |s.intersections| && entry in s.intersections[i].roads;
      }
    }
  }

  /**
   * A split does not keep the `roads` sets in step: removing the old road
   * shifts the indices of the roads after it, and no entry is rewritten.
   * One road from intersection 0 to intersection 1, registered at both
   * ends, split at its second node: intersection 1 still lists road 0 as
   * ending there, but road 0 is now the first half, which ends at the new
   * intersection 2.
   */
  lemma SplitBreaksAdjacency()
    ensures
      var s := EditorState(
        [Road([Node(Point(0.0, 0.0, 0.0)), Node(Point(1.0, 0.0, 0.0))], 0, 1, 0)],
        [Intersection(Point(0.0, 0.0, 0.0), {(0, Start)}), Intersection(Point(1.0, 0.0, 0.0), {(0, End)})],
        [], 1, true, 1, {0});
      AdjacencyConsistent(s) && !AdjacencyConsistent(SplitAt(s, 0, 1))
  {
    var s := EditorState(
      [Road([Node(Point(0.0, 0.0, 0.0)), Node(Point(1.0, 0.0, 0.0))], 0, 1, 0)],
      [Intersection(Point(0.0, 0.0, 0.0), {(0, Start)}), Intersection(Point(1.0, 0.0, 0.0), {(0, End)})],
      [], 1, true, 1, {0});
    var t := SplitAt(s, 0, 1);
    assert (0, End) in t.intersections[1].roads;
    assert t.roads[0].intersectionEnd == 2;
  }

  /**
   * Whenever some intersection registers the end of the last road, a split
   * leaves the sets inconsistent: that index now names the first half,
   * which ends at the new intersection.
   */
  lemma SplitStrandsLastRoadEnd(s: EditorState, r: nat, n: nat, e: nat)
    requires r < |s.roads| && n < |s.roads[r].nodes|
    requires e < |s.intersections| && (|s.roads| - 1, End) in s.intersections[e].roads
    ensures !AdjacencyConsistent(SplitAt(s, r, n))
  {
    var t := SplitAt(s, r, n);
    assert t.intersections[e] == s.intersections[e];
    assert t.roads[|s.roads| - 1].intersectionEnd == |s.intersections|;
  }

  /** A split keeps each road the sole owner of one live mesh entity. */
  lemma SplitKeepsMeshesOwned(s: EditorState, r: nat, n: nat)
    requires r < |s.roads| && n < |s.roads[r].nodes|
    requires MeshesOwned(s)
    ensures MeshesOwned(SplitAt(s, r, n))
  {
    SplitKeepsMeshesLive(s, r, n);
    SplitKeepsMeshesDistinct(s, r, n);
    SplitKeepsLiveAreMeshes(s, r, n);
  }

  lemma SplitKeepsMeshesLive(s: EditorState, r: nat, n: nat)
    requires r < |s.roads| && n < |s.roads[r].nodes|
    requires MeshesLive(s) && MeshesDistinct(s)
    ensures MeshesLive(SplitAt(s, r, n))
  {
    var t := SplitAt(s, r, n);
    forall i | 0 <= i < |t.roads|
      ensures t.roads[i].meshEntity in t.liveEntities && t.roads[i].meshEntity < t.nextEntity
    {
      if i < r {
        assert t.roads[i] == s.roads[i];
      } else if i < |s.roads| - 1 {
        assert t.roads[i] == s.roads[i + 1];
      }
    }
  }

  lemma SplitKeepsMeshesDistinct(s: EditorState, r: nat, n: nat)
    requires r < |s.roads| && n < |s.roads[r].nodes|
    requires MeshesLive(s) && MeshesDistinct(s)
    ensures MeshesDistinct(SplitAt(s, r, n))
  {
    var t := SplitAt(s, r, n);
    forall i, j | 0 <= i < j < |t.roads|
      ensures t.roads[i].meshEntity != t.roads[j].meshEntity
    {
      var si := if i < r then i else i + 1;
      var sj := if j < r then j else j + 1;
      if j < |s.roads| - 1 {
        assert t.roads[i] == s.roads[si] && t.roads[j] == s.roads[sj];
      } else if i < |s.roads| - 1 {
        assert t.roads[i] == s.roads[si];
      }
    }
  }

  lemma SplitKeepsLiveAreMeshes(s: EditorState, r: nat, n: nat)
    requires r < |s.roads| && n < |s.roads[r].nodes|
    requires MeshesDistinct(s) && LiveAreMeshes(s)
    ensures LiveAreMeshes(SplitAt(s, r, n))
  {
    var t := SplitAt(s, r, n);
    var m := |s.roads|;
    forall e | e in t.liveEntities
      ensures exists i :: 0 <= i < |t.roads| && t.roads[i].meshEntity == e
    {
      if e == s.nextEntity {
        assert t.roads[m - 1].meshEntity == e;
      } else if e == s.nextEntity + 1 {
        assert t.roads[m].meshEntity == e;
      } else if e == s.nextEntity + 2 {
        assert t.roads[m + 1].meshEntity == e;
      } else {
        var j :| 0 <= j < m && s.roads[j].meshEntity == e;
        if j < r {
          assert t.roads[j] == s.roads[j];
        } else {
          assert j != r;
          assert t.roads[j - 1] == s.roads[j];
        }
      }
    }
  }

  /** A commit keeps each road the sole owner of one live mesh entity. */
  lemma CommitKeepsMeshesOwned(s: EditorState, cursor: Point)
    requires s.startIntersection <= |s.intersections|
    requires MeshesOwned(s)
    ensures MeshesOwned(CommitAt(s, cursor))
  {
    var t := CommitAt(s, cursor);
    var m := |s.roads|;
    assert forall i :: 0 <= i < m ==> t.roads[i] == t.roads[..m][i] == s.roads[i];
    forall e | e in t.liveEntities
      ensures exists i :: 0 <= i < |t.roads| && t.roads[i].meshEntity == e
    {
      if e == s.nextEntity {
        assert t.roads[m].meshEntity == e;
      } else {
        var j :| 0 <= j < m && s.roads[j].meshEntity == e;
        assert t.roads[j].meshEntity == e;
      }
    }
  }
}
