/**
 * GameEngine.swift: the screen-tap spawn of the one movable piece, the
 * three-step spawn chain (screen point, world transform, location), the pan
 * handler's start-point bookkeeping, and the engine's GestureWatcher callbacks.
 *
 * SceneKit and ARKit are abstracted: a hit test is the list of results the
 * platform reports, asset loading is a catalogue of scene files, and the
 * scene root is the sequence of nodes this engine has added to it.
 */
module GameEngine {
  import opened Basics
  import GestureRecognizer

  datatype Vec3 = Vec3(x: real, y: real, z: real)
  datatype Vec4 = Vec4(x: real, y: real, z: real, w: real)

  /** A simd_float4x4 held by columns; column 3 carries the translation. */
  datatype Transform = Transform(c0: Vec4, c1: Vec4, c2: Vec4, c3: Vec4)

  /** An SCNNode loaded from a scene file: its name and its position. */
  datatype Node = Node(name: string, position: Vec3)

  /** The scene files `SCNScene(named:)` can open: path to the children of the file's root node. */
  type Catalog = map<string, seq<Node>>

  /** A node a SceneKit hit test reports: one this engine added to the scene root, by position, or any other node. */
  datatype NodeRef = Added(index: nat) | Other

  /**
   * The engine's state: `movable` is `movableNode` as an index into
   * `scene`, the nodes the engine has added to the scene root, in order.
   */
  datatype Engine = Engine(movable: Option<nat>, prevLocation: Point, scene: seq<Node>)

  /** The singleton as created: no movable node, `prevLocation` at CGPointZero, nothing added. */
  const Initial := Engine(None, Zero, [])

  /** The asset a tap spawns. */
  const MovablePiece := "rook-dark"

  /** Screen distance that makes one unit of movement in the pan handler. */
  const PanScale: real := 200.0

  /** `movableNode` refers to a node that is in the scene. */
  predicate Valid(e: Engine) {
    e.movable.Some? ==> e.movable.value < |e.scene|
  }

  function AssetPath(named: string): string {
    "Assets.scnassets/" + named + ".scn"
  }

  /** `SCNScene(named:)?.rootNode.childNodes.first`: nil when the file is missing or its root has no child. */
  function FirstChild(catalog: Catalog, named: string): Option<Node> {
    var path := AssetPath(named);
    if path in catalog && |catalog[path]| > 0 then Some(catalog[path][0]) else None
  }

  /** The translation part of a transform: elements 0 to 2 of column 3. */
  function Translation(t: Transform): Vec3 {
    Vec3(t.c3.x, t.c3.y, t.c3.z)
  }

  /** The scene after a spawn, and the spawned node's index, or None when nothing was spawned. */
  datatype Spawned = Spawned(scene: seq<Node>, node: Option<nat>)

  /**
   * `spawn(node:atLocation:)`: load the asset's first node, place it and add
   * it to the scene root; nil, with the scene untouched, when there is no node.
   */
  function SpawnAtLocation(scene: seq<Node>, catalog: Catalog, named: string, location: Vec3): (r: Spawned)
    ensures r.node.Some? <==> FirstChild(catalog, named).Some?
    ensures r.node.None? ==> r.scene == scene
    ensures r.node.Some? ==> r.node.value == |scene| && |r.scene| == |scene| + 1
    ensures r.node.Some? ==> r.scene[..|scene|] == scene
    ensures r.node.Some? ==> r.scene[|scene|] == Node(FirstChild(catalog, named).value.name, location)
  {
    match FirstChild(catalog, named)
    case None => Spawned(scene, None)
    case Some(node) => Spawned(scene + [node.(position := location)], Some(|scene|))
  }

  /** `spawn(node:atWorldTransform:)`: only the translation of the transform is used. */
  function SpawnAtWorldTransform(scene: seq<Node>, catalog: Catalog, named: string, t: Transform): (r: Spawned)
    ensures r.node.Some? <==> FirstChild(catalog, named).Some?
    ensures r.node.None? ==> r.scene == scene
    ensures r.node.Some? ==> r.node.value == |scene| && |r.scene| == |scene| + 1 && r.scene[..|scene|] == scene
    ensures r.node.Some? ==> r.scene[r.node.value] == Node(FirstChild(catalog, named).value.name, Vec3(t.c3.x, t.c3.y, t.c3.z))
  {
    SpawnAtLocation(scene, catalog, named, Translation(t))
  }

  /** Two transforms with the same translation spawn the same thing: rotation and scale are ignored. */
  lemma RotationIgnored(scene: seq<Node>, catalog: Catalog, named: string, t1: Transform, t2: Transform)
    requires t1.c3.x == t2.c3.x && t1.c3.y == t2.c3.y && t1.c3.z == t2.c3.z
    ensures SpawnAtWorldTransform(scene, catalog, named, t1) == SpawnAtWorldTransform(scene, catalog, named, t2)
  {
  }

  /**
   * `spawn(node:atScreenLocation:)`, given the plane hit-test results for
   * the screen point: with no result nothing is spawned; otherwise the first
   * result's transform is used.
   */
  function SpawnAtScreenLocation(scene: seq<Node>, catalog: Catalog, named: string, hits: seq<Transform>): (r: Spawned)
    ensures r.node.Some? <==> |hits| > 0 && FirstChild(catalog, named).Some?
    ensures r.node.None? ==> r.scene == scene
    ensures r.node.Some? ==> r.node.value == |scene| && |r.scene| == |scene| + 1 && r.scene[..|scene|] == scene
    ensures r.node.Some? ==> r.scene[r.node.value] == Node(FirstChild(catalog, named).value.name, Translation(hits[0]))
  {
    if |hits| == 0 then Spawned(scene, None)
    else SpawnAtWorldTransform(scene, catalog, named, hits[0])
  }

  /**
   * `onTap`: while a movable node exists a tap does nothing; otherwise the
   * rook is spawned at the tapped point and becomes the movable node, and a
   * failed spawn leaves everything as it was, so a later tap can retry.
   */
  function OnTap(e: Engine, catalog: Catalog, hits: seq<Transform>): (e': Engine)
    ensures e.movable.Some? ==> e' == e
    ensures e.movable.None? ==>
              (e'.movable.Some? <==> |hits| > 0 && FirstChild(catalog, MovablePiece).Some?)
    ensures e'.movable.None? ==> e' == e
    ensures e.movable.None? && e'.movable.Some? ==>
              && e'.movable.value == |e.scene|
              && |e'.scene| == |e.scene| + 1
              && e'.scene[..|e.scene|] == e.scene
              && e'.scene[|e.scene|] == Node(FirstChild(catalog, MovablePiece).value.name, Translation(hits[0]))
              && e'.prevLocation == e.prevLocation
    ensures Valid(e) ==> Valid(e')
  {
    if e.movable.Some? then e
    else
      var spawned := SpawnAtScreenLocation(e.scene, catalog, MovablePiece, hits);
      e.(movable := spawned.node, scene := spawned.scene)
  }

  /** Apply `onTap` for each hit-test result list in turn. */
  function Taps(e: Engine, catalog: Catalog, taps: seq<seq<Transform>>): Engine
    decreases |taps|
  {
    if |taps| == 0 then e else Taps(OnTap(e, catalog, taps[0]), catalog, taps[1..])
  }

  /**
   * However many taps arrive, at most one node is added, none once a
   * movable node exists, and a movable node, once set, stays set.
   */
  lemma {:induction false} TapsSpawnAtMostOnce(e: Engine, catalog: Catalog, taps: seq<seq<Transform>>)
    ensures |e.scene| <= |Taps(e, catalog, taps).scene| <= |e.scene| + 1
    ensures e.movable.Some? ==> Taps(e, catalog, taps) == e
    ensures Taps(e, catalog, taps).scene[..|e.scene|] == e.scene
    ensures Taps(e, catalog, taps).movable.None? ==> Taps(e, catalog, taps) == e
    decreases |taps|
  {
    if |taps| > 0 {
      var e1 := OnTap(e, catalog, taps[0]);
      TapsSpawnAtMostOnce(e1, catalog, taps[1..]);
      if e1.movable.Some? && e.movable.None? {
        var r := Taps(e1, catalog, taps[1..]);
        assert r == e1;
        assert r.scene[..|e.scene|] == e1.scene[..|e.scene|];
      }
    }
  }

  /** The states a UIPanGestureRecognizer reports (`.recognized` is `.ended`). */
  datatype PanPhase = Possible | Began | Changed | Ended | Cancelled | Failed

  /** The displacement one `.changed` event applies: (start - location) / 200 in x and y. */
  function PanDelta(start: Point, location: Point): Point {
    Divide(Minus(start, location), PanScale)
  }

  /**
   * `onPan`: `.began` records the location; `.changed` moves the movable
   * node, if any, by the delta from the recorded location in x and z; every
   * other state changes nothing.
   */
  function OnPan(e: Engine, phase: PanPhase, location: Point): (e': Engine)
    requires Valid(e)
    ensures Valid(e')
    ensures phase.Began? ==> e' == e.(prevLocation := location)
    ensures !phase.Began? ==> e'.prevLocation == e.prevLocation
    ensures e'.movable == e.movable && |e'.scene| == |e.scene|
    ensures forall i :: 0 <= i < |e.scene| && Some(i) != e.movable ==> e'.scene[i] == e.scene[i]
    ensures !phase.Changed? ==> e'.scene == e.scene
    ensures phase.Changed? && e.movable.Some? ==>
              var before := e.scene[e.movable.value];
              var after := e'.scene[e.movable.value];
              && after.name == before.name
              && after.position.x - before.position.x == (e.prevLocation.x - location.x) / PanScale
              && after.position.y == before.position.y
              && after.position.z - before.position.z == (e.prevLocation.y - location.y) / PanScale
  {
    match phase
    case Began => e.(prevLocation := location)
    case Changed =>
      if e.movable.None? then e
      else
        var i := e.movable.value;
        var delta := PanDelta(e.prevLocation, location);
        var p := e.scene[i].position;
        e.(scene := e.scene[i := e.scene[i].(position := Vec3(p.x + delta.x, p.y, p.z + delta.y))])
    case _ => e
  }

  /** A run of `.changed` events at the given locations. */
  function Drag(e: Engine, locations: seq<Point>): (e': Engine)
    requires Valid(e)
    ensures Valid(e')
    decreases |locations|
  {
    if |locations| == 0 then e else Drag(OnPan(e, Changed, locations[0]), locations[1..])
  }

  /** Sum of the x displacements measured from `start`. */
  function DriftX(start: Point, locations: seq<Point>): real
    decreases |locations|
  {
    if |locations| == 0 then 0.0
    else (start.x - locations[0].x) / PanScale + DriftX(start, locations[1..])
  }

  /** Sum of the y displacements measured from `start`. */
  function DriftY(start: Point, locations: seq<Point>): real
    decreases |locations|
  {
    if |locations| == 0 then 0.0
    else (start.y - locations[0].y) / PanScale + DriftY(start, locations[1..])
  }

  /**
   * Because `prevLocation` is written only on `.began`, every `.changed`
   * event of a drag is measured from the start point: the movable node ends
   * up displaced by the sum of (start - location) / 200 over all events, not
   * by (start - last location) / 200.
   */
  lemma {:induction false} DragMeasuresFromStart(e: Engine, locations: seq<Point>)
    requires Valid(e) && e.movable.Some?
    ensures Drag(e, locations).prevLocation == e.prevLocation
    ensures Drag(e, locations).movable == e.movable
    ensures |Drag(e, locations).scene| == |e.scene|
    ensures Drag(e, locations).scene[e.movable.value].position
         == var p := e.scene[e.movable.value].position;
            Vec3(p.x + DriftX(e.prevLocation, locations), p.y, p.z + DriftY(e.prevLocation, locations))
    decreases |locations|
  {
    if |locations| > 0 {
      DragMeasuresFromStart(OnPan(e, Changed, locations[0]), locations[1..]);
    }
  }

  /** What `startPosition` reports: no figure to look for, the movable node was hit, or it was not. */
  datatype StartOutcome = NoFigure | Found | Missed

  /**
   * `startPosition(on:)`, given the node hits SceneKit reports for the
   * point. The point is force-unwrapped before anything else, so a nil point
   * is a trap: callers must pass a point.
   */
  function StartPosition(e: Engine, point: Option<Point>, hits: seq<NodeRef>): (o: StartOutcome)
    requires point.Some?
    ensures o == NoFigure <==> e.movable.None?
    ensures o == Found <==> e.movable.Some? && |hits| > 0 && hits[0] == Added(e.movable.value)
  {
    if e.movable.None? then NoFigure
    else if |hits| > 0 && hits[0] == Added(e.movable.value) then Found
    else Missed
  }

  /**
   * The engine as the recognizer's GestureWatcher, given the node hits for
   * the callback's point: `startPosition` reports an outcome, the other three
   * callbacks have empty bodies, and none of them changes the engine.
   */
  function Watch(e: Engine, n: GestureRecognizer.Notification, hits: seq<NodeRef>): (o: Option<StartOutcome>)
    requires n.StartPosition? ==> n.on.Some?
    ensures o.Some? <==> n.StartPosition?
    ensures o.Some? ==> (o.value == NoFigure <==> e.movable.None?)
  {
    if n.StartPosition? then Some(StartPosition(e, n.on, hits)) else None
  }
}
