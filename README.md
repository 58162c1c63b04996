# Road creation system of a city builder

This project models the road creation system of a small city-building game.
The model covers one tick of `road_creation_system` in
`city_builder/src/game/roads/road_creation.rs`, from the point where the
cursor has moved (lines 64-226). The road network is index-addressed and
dense: a list of roads (node polylines with a start and an end intersection
index and a mesh entity) and a list of intersections (a position and a set of
`(road index, cap)` pairs). An edit session (`RoadCreator`) records the
nodes of the road being drawn, the intersection it starts from and a
debounce flag. Each tick the system does five things, in order:

- **Sampler** (lines 66-74): appends the cursor as a node once the cursor is
  at least the node spacing away from the last node. Before the first node
  it measures from the start intersection instead.
- **Snap search** (lines 79-123): scans the roads for a node within
  3.5 units of the cursor. Far nodes make it jump ahead by
  `floor(sqrt(d / ROAD_NODE_DISTANCE)) - 5`. It stops scanning a road once
  the distance grows again. The first road with a hit wins.
- **Debounce** (lines 125-131): re-arms the session once the search reports
  no node. A disarmed session that still hits a node ends the tick.
- **Split** (lines 134-188): cuts the hit road at the hit node. It adds a new
  intersection there and pushes three roads ending at it: the first half,
  the second half and the in-progress road. It resets the session onto the
  new intersection and removes the old road.
- **Commit** (lines 194-225): on a fresh Space press, adds an intersection at
  the cursor and a road from the session start to it. It registers the road
  at both ends and restarts the session there.

Modules:

- `Components` holds the data model. `Network`, `RoadCreator` and
  `EntityStore` are classes the system updates in place. `EditorState` is
  the same state as one value.
- `Sampler`, `IntersectionSearch` and `Topology` each have a pure function
  (`Sampled`, `Snap`, `SplitAt`/`CommitAt`) and a method over the classes
  that is proved to compute it.
- `RoadCreation` composes them. `RoadCreation.Tick` is the whole tick as a
  function. The method `RoadCreation.RoadCreationSystem` follows the
  source's control flow, including its early returns, and is proved equal
  to `Tick`.

Behaviour of the code that the model reproduces as written:

- A split does not end the tick. With Space pressed on the same tick, a commit
  follows the split. It then builds an empty road from the split's new
  intersection.
- The in-progress road pushed by a split starts at the *split road's* start
  intersection, not at the session's start intersection (line 174).
- Removing the old road (line 188) does not adjust any index stored in the
  intersections' `roads` sets. The split also registers none of the three new
  roads. `Topology.SplitStrandsLastRoadEnd` shows that every split breaks
  consistency once the last road's end is registered, and
  `Topology.SplitBreaksAdjacency` shows a concrete network. The commit, by contrast, keeps the sets consistent
  (`Topology.CommitKeepsAdjacency`).
- The far-node skip can step over nodes inside the snap radius, so the
  search can report nothing while a node sits under the cursor, and a
  disarmed session is then re-armed.
  `IntersectionSearch.SnapCanStepOverNearNode` shows this on a two-node
  road. `IntersectionSearch.ScanWithoutSkipsEmpty` gives the exact condition
  for an empty result when nothing is skipped.
- The skip step is not clamped. The model proves clamping is not needed:
  under the guard `d > 100 * ROAD_NODE_DISTANCE` the floor of the square
  root is at least 10, so the `usize` subtraction cannot underflow and the
  scan always moves forward by at least 5.
- The index on line 222 is taken after the push on line 198, so the commit
  does not panic exactly when the session start is at most the number of
  intersections before the push. This includes the case where it equals
  the new intersection's own index. `Topology.CommitAt` requires exactly
  that and models both cases.

## Model

| member | source | states |
|---|---|---|
| Components.DistSq | city_builder/src/game/roads/road_creation.rs:67 | the squared distance between two points is never negative and is zero from a point to itself |
| Components.EntityStore.Spawn | city_builder/src/game/roads/road_creation.rs:151-155 | spawning returns a fresh handle and adds it to the live entities |
| Components.EntityStore.Despawn | city_builder/src/game/roads/road_creation.rs:187 | despawning removes exactly that handle from the live entities |
| Sampler.Sampled | city_builder/src/game/roads/road_creation.rs:66-74 | sampling leaves the nodes unchanged or appends exactly the cursor, and it appends iff an anchor exists and is at least the spacing away |
| Sampler.Sample | city_builder/src/game/roads/road_creation.rs:66-74 | the in-place sampler leaves the session's nodes equal to `Sampled` of the old nodes |
| Sampler.SampleRunSpaced | city_builder/src/game/roads/road_creation.rs:66-74 | over many ticks, when every cursor position is at least the spacing from the previous one, every position becomes a node, in order |
| Sampler.SampleRunClose | city_builder/src/game/roads/road_creation.rs:66-74 | cursor positions all closer than the spacing to the anchor add no node |
| IntersectionSearch.IntSqrt | city_builder/src/game/roads/road_creation.rs:97 | the integer square root k satisfies k*k <= q < (k+1)*(k+1) |
| IntersectionSearch.SkipRoot | city_builder/src/game/roads/road_creation.rs:97 | the root k of the skip is floor(sqrt(d / ROAD_NODE_DISTANCE)), stated without division: k*k*D <= d < (k+1)*(k+1)*D |
| IntersectionSearch.SkipStep | city_builder/src/game/roads/road_creation.rs:95-98 | under the far-node guard the skip is that root minus 5 and is at least 5, so the `usize` subtraction never underflows and the scan moves forward |
| IntersectionSearch.ScanFrom | city_builder/src/game/roads/road_creation.rs:88-115 | the scan of one road from node n returns an in-range node index within the snap radius, and it keeps the candidate so far unless it finds one at or after n |
| IntersectionSearch.ScanRoad | city_builder/src/game/roads/road_creation.rs:83-115 | a node found on a road is a valid index within the snap radius of the cursor |
| IntersectionSearch.SnapFrom | city_builder/src/game/roads/road_creation.rs:80-123 | a hit found from road r onwards names a road at or after r and a node on it within the snap radius |
| IntersectionSearch.Snap | city_builder/src/game/roads/road_creation.rs:79-123 | a hit names an existing road and node within the snap radius of the cursor |
| IntersectionSearch.SnapSearch | city_builder/src/game/roads/road_creation.rs:79-123 | the nested loops with their skip, break and continue compute `Snap`, so the hit is valid and within the snap radius |
| IntersectionSearch.SnapFirstRoadWins | city_builder/src/game/roads/road_creation.rs:117-122 | no hit iff no road has a node in range on its own scan; a hit (q, n) is road q's own result, and every earlier road has none |
| IntersectionSearch.ScanLocalMinimum | city_builder/src/game/roads/road_creation.rs:101-112 | the node returned is a local minimum: the next node, when in range and not skipped, is strictly farther from the cursor |
| IntersectionSearch.ScanWithoutSkips | city_builder/src/game/roads/road_creation.rs:104-115 | on a road with no far nodes the scan returns m iff m ends the run of non-increasing distances from the first node within the radius |
| IntersectionSearch.ScanWithoutSkipsEmpty | city_builder/src/game/roads/road_creation.rs:109-112 | on a road with no far nodes the scan finds nothing iff no node is within the snap radius |
| IntersectionSearch.SnapPicksNearestNodeOnStraightRoad | city_builder/src/game/roads/road_creation.rs:79-123 | for one instance: on a road of six nodes from (0,0,0) to (5,0,0) at unit spacing, with the cursor at (5,0,0.1) and ROAD_NODE_DISTANCE 1, the search picks node 5, the nearest, not node 2, the first one in range |
| IntersectionSearch.SnapCanStepOverNearNode | city_builder/src/game/roads/road_creation.rs:95-98 | for one instance: on a road with nodes at (11,0,0) and (0,0,0), the cursor at (0,0,0) and ROAD_NODE_DISTANCE 1, the skip from node 0 leaves the road and the search reports nothing, although node 1 is at distance 0 |
| Topology.RemoveAt | city_builder/src/game/roads/road_creation.rs:188 | removing index i keeps the prefix and shifts every later element down by one |
| Topology.SplitAt | city_builder/src/game/roads/road_creation.rs:134-188 | a split adds one intersection at the hit node with an empty road set. It adds two roads net. Roads before the hit road are unchanged and later ones shift down by one. The last three are the two halves, which concatenate to the old nodes, and the in-progress road. All three run from the old road's start to the new intersection. The session restarts there disarmed, and three meshes replace the old one |
| Topology.Split | city_builder/src/game/roads/road_creation.rs:134-188 | the in-place split leaves the network, the session and the entity store equal to `SplitAt` of the old state |
| Topology.CommitAt | city_builder/src/game/roads/road_creation.rs:194-225 | a commit appends an intersection at the cursor and a road from the session start to it. The new intersection registers the road's end, and also its start when the session start is the new index. The start intersection registers the road's start and the others are unchanged. The session restarts at the new intersection with no nodes |
| Topology.Commit | city_builder/src/game/roads/road_creation.rs:194-225 | the in-place commit leaves the network, the session and the entity store equal to `CommitAt` of the old state |
| Topology.SplitKeepsEndpointsLive | city_builder/src/game/roads/road_creation.rs:139-188 | if every road endpoint and the session start name existing intersections before a split, they do after it |
| Topology.CommitKeepsEndpointsLive | city_builder/src/game/roads/road_creation.rs:198-225 | a commit keeps every road endpoint and the session start naming existing intersections |
| Topology.CommitKeepsAdjacency | city_builder/src/game/roads/road_creation.rs:214-222 | a commit keeps every intersection's road set naming existing roads whose matching end is that intersection |
| Topology.SplitBreaksAdjacency | city_builder/src/game/roads/road_creation.rs:139-188 | for one instance: on a network of one road from intersection 0 to intersection 1, registered at both ends, a split at node 1 leaves intersection 1 listing road 0 as ending there, while road 0, now the first half, ends at the new intersection 2 |
| Topology.SplitStrandsLastRoadEnd | city_builder/src/game/roads/road_creation.rs:139-188 | for every split: if some intersection registers the end of the last road before the split, the road sets are inconsistent afterwards, because that index now names the first half, which ends at the new intersection |
| Topology.SplitKeepsMeshesOwned | city_builder/src/game/roads/road_creation.rs:147-188 | after a split every road still owns one live mesh of its own, and every live mesh belongs to a road |
| Topology.CommitKeepsMeshesOwned | city_builder/src/game/roads/road_creation.rs:203-214 | after a commit every road still owns one live mesh of its own, and every live mesh belongs to a road |
| RoadCreation.Tick | city_builder/src/game/roads/road_creation.rs:64-226 | after a tick the debounce flag is set iff the search found nothing. A disarmed session that hits a node changes only its nodes, by sampling. A split adds two roads and one intersection and a commit one of each. Either one clears the in-progress nodes |
| RoadCreation.RoadCreationSystem | city_builder/src/game/roads/road_creation.rs:64-226 | the in-place system, with its early returns, leaves the state equal to `Tick` of the old state |
| RoadCreation.TickKeepsEndpointsLive | city_builder/src/game/roads/road_creation.rs:64-226 | a tick from a state whose endpoints and session start name existing intersections keeps that, whatever the inputs; such a state never makes the commit index out of range |
| RoadCreation.TickKeepsMeshesOwned | city_builder/src/game/roads/road_creation.rs:64-226 | every road owning one live mesh of its own is preserved by a tick |

## Left out

- Cursor movement from the arrow keys and the camera follow (lines 31-61) are left out. The moved cursor position is an input of the tick.
- The commented-out distance counter (line 5) and the animation code it belonged to are dead code.
- The console output (lines 76 and 190) is not modelled.
- Mesh and material generation (`generate_road_mesh`, `StandardMaterial`) is left out. A spawned mesh is only a fresh entity handle. The deferral of engine commands to the end of the frame is not modelled.
- Positions and distances are exact reals. `f32` rounding, infinities other than the initial "no candidate yet" distance, and NaN are not modelled.
- The value of ROAD_NODE_DISTANCE is a parameter (any positive real). ROAD_NODE_DISTANCE_SQ is taken to be its square, because `road_network.rs` is not part of this model.
- `components.rs` and `road_mesh.rs` are not part of this model. The entities are reconstructed from how the system uses them.
- `HashSet` is a mathematical set; iteration order is never observed by the system.
- The empty test module (lines 231-239) asserts nothing.
- Topology.CommitAt: the inputs on which line 222 panics (a session start greater than the number of intersections before the commit) are excluded by its precondition and not modelled. The same holds for `Topology.Commit`, `RoadCreation.Tick` and `RoadCreation.RoadCreationSystem`. `RoadCreation.TickKeepsEndpointsLive` shows that states whose road endpoints and session start name existing intersections never reach those inputs.
- DistSq: does not state that only equal points are at distance zero, because nothing in the system relies on it.
