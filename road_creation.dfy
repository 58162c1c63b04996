/**
 * One tick of the road creation system, from the point where the cursor
 * has moved: sample, search, debounce, split, commit.
 */
module RoadCreation {
  import opened Components
  import opened Sampler
  import opened IntersectionSearch
  import opened Topology

  /**
   * The state after one tick. `spaceJustPressed` is the commit key's edge
   * trigger; ROAD_NODE_DISTANCE is `nodeDistance` and ROAD_NODE_DISTANCE_SQ
   * its square. The index at line 222 is taken after the push at line 198,
   * so the commit needs the session start to be at most the old number of
   * intersections; it can only be out of range when no split ran first.
   */
  function Tick(s: EditorState, cursor: Point, spaceJustPressed: bool, nodeDistance: real): (t: EditorState)
    requires nodeDistance > 0.0
    requires spaceJustPressed && Snap(s.roads, cursor, nodeDistance).None? ==>
      s.startIntersection <= |s.intersections|
    // the debounce flag ends up set exactly when the search found nothing
    ensures t.canCreateIntersection == Snap(s.roads, cursor, nodeDistance).None?
    // a disarmed session that finds a node returns early: only the sampler acted
    ensures !s.canCreateIntersection && Snap(s.roads, cursor, nodeDistance).Some? ==>
      t == s.(currentRoadNodes :=
                Sampled(s.currentRoadNodes, s.intersections, s.startIntersection, cursor, nodeDistance * nodeDistance))
    // how the network grows: two roads and one intersection per split, one of each per commit
    ensures
      var lowest := Snap(s.roads, cursor, nodeDistance);
      var split := lowest.Some? && s.canCreateIntersection;
      var commit := spaceJustPressed && (lowest.None? || s.canCreateIntersection);
      && |t.roads| == |s.roads| + (if split then 2 else 0) + (if commit then 1 else 0)
      && |t.intersections| == |s.intersections| + (if split then 1 else 0) + (if commit then 1 else 0)
      && (split || commit ==> t.currentRoadNodes == [])
  {
    var sampled := s.(currentRoadNodes :=
      Sampled(s.currentRoadNodes, s.intersections, s.startIntersection, cursor, nodeDistance * nodeDistance));
    var lowest := Snap(sampled.roads, cursor, nodeDistance);
    if !sampled.canCreateIntersection && lowest.Some? then
      sampled
    else
      var armed := if !sampled.canCreateIntersection then sampled.(canCreateIntersection := true) else sampled;
      var edited := if lowest.Some? then SplitAt(armed, lowest.value.0, lowest.value.1) else armed;
      if spaceJustPressed then CommitAt(edited, cursor) else edited
  }

  /** `road_creation_system`, lines 64-226, with the moved cursor as input. */
  method RoadCreationSystem(network: Network, creator: RoadCreator, world: EntityStore,
                            cursor: Point, spaceJustPressed: bool, nodeDistance: real)
    requires nodeDistance > 0.0
    requires spaceJustPressed && Snap(network.roads, cursor, nodeDistance).None? ==>
      creator.startIntersection <= |network.intersections|
    modifies network, creator, world
    ensures Snapshot(network, creator, world) ==
      Tick(old(Snapshot(network, creator, world)), cursor, spaceJustPressed, nodeDistance)
  {
    Sample(network, creator, cursor, nodeDistance * nodeDistance);

    var lowest := SnapSearch(network, cursor, nodeDistance);

    if !creator.canCreateIntersection {
      if lowest.None? {
        creator.canCreateIntersection := true;
      } else {
        return;
      }
    }

    if lowest.Some? {
      Split(network, creator, world, lowest.value.0, lowest.value.1);
    }

    if !spaceJustPressed {
      return;
    }
    Commit(network, creator, world, cursor);
  }

  /* ---- Invariants of the tick ---- */

  /**
   * Road endpoints and the session start name live intersections after
   * every tick that starts from such a state; such a state also meets the
   * tick's precondition whatever the inputs.
   */
  lemma TickKeepsEndpointsLive(s: EditorState, cursor: Point, spaceJustPressed: bool, nodeDistance: real)
    requires nodeDistance > 0.0
    requires EndpointsLive(s)
    ensures EndpointsLive(Tick(s, cursor, spaceJustPressed, nodeDistance))
  {
    var sampled := s.(currentRoadNodes :=
      Sampled(s.currentRoadNodes, s.intersections, s.startIntersection, cursor, nodeDistance * nodeDistance));
    var lowest := Snap(sampled.roads, cursor, nodeDistance);
    if sampled.canCreateIntersection || lowest.None? {
      var armed := sampled.(canCreateIntersection := true);
      assert EndpointsLive(armed);
      var edited := armed;
      if lowest.Some? {
        SplitKeepsEndpointsLive(armed, lowest.value.0, lowest.value.1);
        edited := SplitAt(armed, lowest.value.0, lowest.value.1);
      }
      if spaceJustPressed {
        CommitKeepsEndpointsLive(edited, cursor);
      }
    }
  }

  /** Every road owns one live mesh entity of its own after every tick that starts that way. */
  lemma TickKeepsMeshesOwned(s: EditorState, cursor: Point, spaceJustPressed: bool, nodeDistance: real)
    requires nodeDistance > 0.0
    requires spaceJustPressed && Snap(s.roads, cursor, nodeDistance).None? ==>
      s.startIntersection <= |s.intersections|
    requires MeshesOwned(s)
    ensures MeshesOwned(Tick(s, cursor, spaceJustPressed, nodeDistance))
  {
    var sampled := s.(currentRoadNodes :=
      Sampled(s.currentRoadNodes, s.intersections, s.startIntersection, cursor, nodeDistance * nodeDistance));
    var lowest := Snap(sampled.roads, cursor, nodeDistance);
    if sampled.canCreateIntersection || lowest.None? {
      var armed := sampled.(canCreateIntersection := true);
      assert MeshesOwned(armed);
      var edited := armed;
      if lowest.Some? {
        SplitKeepsMeshesOwned(armed, lowest.value.0, lowest.value.1);
        edited := SplitAt(armed, lowest.value.0, lowest.value.1);
      }
      if spaceJustPressed {
        CommitKeepsMeshesOwned(edited, cursor);
      }
    }
  }
}
