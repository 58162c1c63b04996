/**
 * Data model of the road network edited by the road creation system:
 * points and nodes, roads, intersections, the edit session (road creator),
 * the store of rendering entities, and the whole editor state as one value.
 */
module Components {

  datatype Option<+T> = None | Some(value: T)

  /** A position in 3D space; coordinates are exact reals (no f32 rounding). */
  datatype Point = Point(x: real, y: real, z: real)

  /** Squared Euclidean distance, as `Vec3::distance_squared`. */
  function DistSq(p: Point, q: Point): (r: real)
    ensures r >= 0.0
    ensures p == q ==> r == 0.0
  {
    var dx, dy, dz := p.x - q.x, p.y - q.y, p.z - q.z;
    SquarePositive(dx);
    SquarePositive(dy);
    SquarePositive(dz);
    dx * dx + dy * dy + dz * dz
  }

  lemma SquarePositive(a: real)
    ensures a * a >= 0.0
  {
    if a < 0.0 {
      assert a * a == (-a) * (-a);
    }
  }

  /** NEW_INTERSECTION_DISTANCE_SQ: the squared snap radius 3.5 * 3.5. */
  const SnapRadiusSq: real := 3.5 * 3.5

  /** A sampled point on a road's centre line. */
  datatype Node = Node(position: Point)

  /** Which end of a road touches an intersection. */
  datatype RoadCap = Start | End

  /** An opaque handle of a spawned rendering entity. */
  type Entity = nat

  datatype Road = Road(
    nodes: seq<Node>,
    intersectionStart: nat,
    intersectionEnd: nat,
    meshEntity: Entity)

  datatype Intersection = Intersection(position: Point, roads: set<(nat, RoadCap)>)

  /** The dense, index-addressed store of the network: `RoadNetwork`. */
  class Network {
    var roads: seq<Road>
    var intersections: seq<Intersection>
  }

  /** The edit session: `RoadCreator`. */
  class RoadCreator {
    var currentRoadNodes: seq<Node>
    var startIntersection: nat
    var canCreateIntersection: bool
  }

  /**
   * The engine's entity storage, reduced to what the road meshes need:
   * spawning hands out a fresh handle, despawning releases one.
   */
  class EntityStore {
    var next: Entity
    var live: set<Entity>

    constructor ()
      ensures next == 0 && live == {}
    {
      next := 0;
      live := {};
    }

    method Spawn() returns (e: Entity)
      modifies this
      ensures e == old(next) && next == old(next) + 1
      ensures live == old(live) + {e}
    {
      e := next;
      next := next + 1;
      live := live + {e};
    }

    method Despawn(e: Entity)
      modifies this
      ensures next == old(next) && live == old(live) - {e}
    {
      live := live - {e};
    }
  }

  /** Everything one tick of the road creation system reads and writes. */
  datatype EditorState = EditorState(
    roads: seq<Road>,
    intersections: seq<Intersection>,
    currentRoadNodes: seq<Node>,
    startIntersection: nat,
    canCreateIntersection: bool,
    nextEntity: Entity,
    liveEntities: set<Entity>)

  function Snapshot(network: Network, creator: RoadCreator, world: EntityStore): EditorState
    reads network, creator, world
  {
    EditorState(network.roads, network.intersections,
                creator.currentRoadNodes, creator.startIntersection, creator.canCreateIntersection,
                world.next, world.live)
  }

  /** Every road's two endpoints and the session's start index name live intersections. */
  predicate EndpointsLive(s: EditorState) {
    && s.startIntersection < |s.intersections|
    && forall i :: 0 <= i < |s.roads| ==>
         s.roads[i].intersectionStart < |s.intersections| && s.roads[i].intersectionEnd < |s.intersections|
  }

  /**
   * Every entry of an intersection's `roads` set names a live road whose
   * matching endpoint is that intersection.
   */
  predicate AdjacencyConsistent(s: EditorState) {
    forall i, entry :: 0 <= i < |s.intersections| && entry in s.intersections[i].roads ==>
      entry.0 < |s.roads| &&
      (entry.1 == Start ==> s.roads[entry.0].intersectionStart == i) &&
      (entry.1 == End ==> s.roads[entry.0].intersectionEnd == i)
  }

  /**
   * Each road owns exactly one live mesh entity: the live entities are
   * exactly the roads' meshes, no two roads share one, and every handle
   * handed out so far is below `nextEntity`.
   */
  ghost predicate MeshesOwned(s: EditorState) {
    MeshesLive(s) && MeshesDistinct(s) && LiveAreMeshes(s)
  }

  ghost predicate MeshesLive(s: EditorState) {
    forall i :: 0 <= i < |s.roads| ==>
      s.roads[i].meshEntity in s.liveEntities && s.roads[i].meshEntity < s.nextEntity
  }

  ghost predicate MeshesDistinct(s: EditorState) {
    forall i, j :: 0 <= i < j < |s.roads| ==> s.roads[i].meshEntity != s.roads[j].meshEntity
  }

  ghost predicate LiveAreMeshes(s: EditorState) {
    forall e :: e in s.liveEntities ==> exists i :: 0 <= i < |s.roads| && s.roads[i].meshEntity == e
  }
}
