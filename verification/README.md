# ARchesster: grab / move / release, in Dafny

ARchesster is an iOS augmented-reality chess app. This project models the
discrete logic around its grab / move / release interaction and proves
properties of that model. The logic comes from three Swift files:

- `GestureRecognizer.swift`: the shared recognizer. It has an `isHolding` flag
  and the last gesture point. Its `grab`, `move` and `ungrab` calls become
  callbacks on an optional `GestureWatcher`. A `didSet` observer reports every
  assignment to `isHolding`. In the model this is module `GestureRecognizer`,
  together with the protocol the calls should follow:
  (grab move\* ungrab)\* (grab move\*)?. The protocol is written three ways,
  and the three are proved equivalent:
  - as that language (`InLanguage`: finished sessions, then at most one
    unfinished one);
  - as a two-state automaton (`Accepts`);
  - as a per-position condition (`OpenAt`: an earlier grab with no ungrab
    after it).
- `ViewController.swift`: the hand path of the camera-frame callback. In the
  model this is module `ViewController`. The dispatch rule (`Dispatch`) reads
  the frame's first hand-pose observation and the recognizer's `isHolding`,
  and makes at most one recognizer call. The left-hand node's timeout
  counter (`ProcessPoints`) is reset on each observation and counts down on
  each frame without one. When it is spent, the node is detached.
- `GameEngine.swift`: the engine singleton. In the model this is module
  `GameEngine`. A tap spawns the `rook-dark` piece through a chain of three
  spawn functions, but only while there is no movable node. The pan handler
  records its start point. The engine is also the recognizer's watcher, and
  its `startPosition` callback force-unwraps its point.

Module `App` puts the three together as one sequential stream of taps, pans
and camera frames. Over any such stream it proves two things. First, the
recognizer's calls follow the protocol. Second, the engine holds at most one
spawned node.

It also proves that the hand path never passes a nil point to `grab`. A grab
happens only on a pinch. A pinch is only detected when both fingertip joints
were recognised, and in that case the gesture point exists. So the
force-unwrap in the engine's `startPosition` never traps on this path.

Platform calls are parameters of the model:
- A plane hit test is the list of transforms it returns.
- A node hit test is the list of nodes it returns.
- Asset loading is a catalogue that maps scene-file paths to their root's
  children.
- A new hand node is a `HandNode` value supplied with each frame.
- Vision's hand-pose result is the frame's first observation, or none.

An observation records its chirality. When both the thumb tip and the index
tip were recognised, it also records whether they pinch and their midpoint.
Points and positions are reals.

## Model

`ViewController.GesturePoint` (ViewController.swift:126-144) and `ViewController.LeftObservation` (ViewController.swift:83, 98-99) model `gesturePoint` and `templefthandobs`. They carry no contract of their own; their behaviour is stated through `Dispatch` and `DidUpdate` below.

| member | source | states |
|---|---|---|
| `GestureRecognizer.DoGrab` | ARchesster/GestureRecognizer.swift:21-35 | grab sets `isHolding` to true and stores the given point, even a nil one. With a watcher it reports `gestureSwitched(true)`, then `startPosition(point)`. This happens even when the recognizer was already holding. Without a watcher it reports nothing. |
| `GestureRecognizer.DoMove` | ARchesster/GestureRecognizer.swift:37-40 | move stores the point and leaves `isHolding` and the watcher unchanged. It never reports a switch: with a watcher it reports only `updatePosition(point)`. |
| `GestureRecognizer.DoUngrab` | ARchesster/GestureRecognizer.swift:42-46 | ungrab sets `isHolding` to false and stores the point. With a watcher it reports `gestureSwitched(false)`, then `finishPosition(point)`. Without one it reports nothing. |
| `GestureRecognizer.RunChangesOnlyHoldingAndPoint` | ARchesster/GestureRecognizer.swift:17-46 | After any sequence of calls, only `isHolding` and `gesturePoint` have changed. `isHolding` is decided by the last grab or ungrab, and `gesturePoint` is the last call's point. |
| `GestureRecognizer.UnwatchedRunIsSilent` | ARchesster/GestureRecognizer.swift:29-46 | With no watcher set, no sequence of calls reports anything. |
| `GestureRecognizer.WatcherStaysInSync` | ARchesster/GestureRecognizer.swift:21-25 | A watcher that remembers only the last `gestureSwitched` value always agrees with `isHolding` once the calls are over. |
| `GestureRecognizer.EveryAssignmentReports` | ARchesster/GestureRecognizer.swift:21-46 | With a watcher, the number of `gestureSwitched` reports equals the number of grabs plus ungrabs, redundant ones included. Each call makes exactly one further callback. |
| `GestureRecognizer.AcceptsIffEveryCallAllowed` | ARchesster/GestureRecognizer.swift:31-46 | The protocol automaton accepts a call sequence exactly when each call is the one its holding state allows. A grab is allowed only when not holding; a move or ungrab only when holding. |
| `GestureRecognizer.AcceptsIsTheLanguage` | ARchesster/GestureRecognizer.swift:31-46 | Run from idle, the protocol automaton accepts exactly the call sequences of (grab move\* ungrab)\* (grab move\*)?. That is, finished grab-moves-ungrab sessions followed by at most one unfinished grab-moves session. |
| `GestureRecognizer.AcceptedCallsAreBracketed` | ARchesster/GestureRecognizer.swift:31-46 | A call sequence is accepted from idle exactly when every move and every ungrab has an open grab before it and no grab does. Both directions are proved. |
| `ViewController.IsOKGesture` | ARchesster/ViewController.swift:126-163 | A pinch is reported only when both fingertip joints were recognised, so whenever `isOKGesture` holds, `gesturePoint` is not nil. |
| `ViewController.Dispatch` | ARchesster/ViewController.swift:94-111 | No observation, or one that is not of a left hand, makes no call. A left-hand pinch makes a grab when idle and a move when holding. A left hand without a pinch makes an ungrab when holding and no call when idle. The call's point is the gesture point, which a grab always has. |
| `ViewController.ProcessPoints` | ARchesster/ViewController.swift:165-186 | An observation creates the node only if there is none, attaches it and resets the count to TIME_OUT (100). Without one, an existing node's count falls by exactly one while it is positive; once it is spent the node is detached and the count stays. With no node nothing changes. The node reference is never replaced, and the count stays within 0..TIME_OUT. |
| `ViewController.CountDown` | ARchesster/ViewController.swift:179-185 | After k frames without an observation, the count is max(count - k, 0). The node stays attached only while k is no more than the count. With no node, nothing changes. |
| `ViewController.HandNodeOutlivesTimeOut` | ARchesster/ViewController.swift:166-185 | After an observation, the node stays attached through exactly TIME_OUT frames without one, and the next such frame detaches it. |
| `ViewController.ReattachKeepsNode` | ARchesster/ViewController.swift:167-183 | Once absent frames have detached the node, the next observation re-attaches the same node with a full count. No new node is created. |
| `ViewController.DidUpdate` | ARchesster/ViewController.swift:73-124 | A frame with abnormal tracking changes nothing. Otherwise the frame makes exactly the call the dispatch rule picks from its first observation and the recognizer's `isHolding`, or none when the rule picks none. That call is one the protocol allows. The recognizer changes only through that call. Any `startPosition` carries a point. A right-hand observation reaches `processPoints` as nil, so it counts as an absent frame. |
| `ViewController.FramesFollowProtocol` | ARchesster/ViewController.swift:101-111 | Over any frames, the calls are accepted by the protocol automaton from the recognizer's starting state. The recognizer's state and callbacks are exactly those the calls produce, and every `startPosition` carries a point. |
| `ViewController.HandCallsAreBracketed` | ARchesster/ViewController.swift:101-111 | Starting idle, the hand path's calls are in the language (grab move\* ungrab)\* (grab move\*)?. A move or ungrab never occurs without an open grab before it, and a grab never occurs while one is open. |
| `ViewController.HandSlotStaysValid` | ARchesster/ViewController.swift:165-186 | Over any frames, the count stays within 0..TIME_OUT and an attached node exists. Once a node exists, it is never replaced. |
| `GameEngine.SpawnAtLocation` | ARchesster/GameEngine.swift:57-69 | A node is spawned exactly when the asset's scene file exists and its root has a child. That node is appended to the scene at the given location and keeps its name. Otherwise the result is nil and the scene is unchanged. |
| `GameEngine.SpawnAtWorldTransform` | ARchesster/GameEngine.swift:51-55 | The spawned node is the named asset's first child, placed at elements 0..2 of the transform's column 3. |
| `GameEngine.RotationIgnored` | ARchesster/GameEngine.swift:51-55 | Two transforms with the same translation column spawn identical results. Rotation and scale are ignored. |
| `GameEngine.SpawnAtScreenLocation` | ARchesster/GameEngine.swift:42-49 | With no plane hit-test result, the result is nil and the scene is unchanged. Otherwise the named asset's first child is appended, at the first result's translation. |
| `GameEngine.OnTap` | ARchesster/GameEngine.swift:71-79 | While a movable node exists, a tap changes nothing. Otherwise the tap appends the first child of the `rook-dark` asset, named as that child, at the first hit's translation, and makes it the movable node. A failed hit test or asset load leaves the whole state unchanged, so a later tap can retry. |
| `GameEngine.TapsSpawnAtMostOnce` | ARchesster/GameEngine.swift:71-79 | Over any number of taps, at most one node is added, and none once a movable node exists. Existing nodes are kept. A run that ends without a movable node has changed nothing. |
| `GameEngine.OnPan` | ARchesster/GameEngine.swift:81-96 | `.began` records the location and changes nothing else. `.changed` moves only the movable node, if any, by (start - location)/200 in x and z; y and the recorded start are unchanged. Every other state changes nothing. |
| `GameEngine.DragMeasuresFromStart` | ARchesster/GameEngine.swift:84-90 | Over a run of `.changed` events, the recorded start never changes. The node's total displacement is the sum of (start - location)/200 over the events, each measured from the pan start point rather than from the previous event. |
| `GameEngine.StartPosition` | ARchesster/GameEngine.swift:104-117 | The point must be non-nil, because it is force-unwrapped. With no movable node the callback reports "no figure" and does nothing more. Otherwise it reports "found" exactly when the first node hit is the movable node. |
| `GameEngine.Watch` | ARchesster/GameEngine.swift:99-126 | As the watcher, the engine responds only to `startPosition`. The other three callbacks do nothing, and no callback changes the engine. |
| `App.Deliver` | ARchesster/GameEngine.swift:99-117 | Delivering a frame's callbacks yields one report per `startPosition`. Each report says "no figure" exactly when there is no movable node, and "found" exactly when the first node hit is the movable node. |
| `App.Handle` | ARchesster/GameEngine.swift:18-40 | A tap leaves the engine as the tap handler does, and a pan leaves it as the pan handler does; neither touches the recognizer or the hand node. A camera frame leaves the controller as the frame handler does and makes that handler's calls. Its reports are what the engine answers to that frame's callbacks, and the engine itself is unchanged. Every event keeps the movable node inside the scene, and its calls are accepted by the protocol automaton. |
| `App.EventsFollowProtocol` | ARchesster/ViewController.swift:101-111 | Over any interleaving of taps, pans and frames, the recognizer's calls are accepted by the protocol automaton from its starting state. Its final state is the one those calls produce. |
| `App.AtMostOnePiece` | ARchesster/GameEngine.swift:71-79 | If the engine starts with no piece or with the rook as its only piece, it still satisfies that after any events. |
| `App.StartRuns` | ARchesster/GameEngine.swift:18-29 | From the application's start (idle recognizer watched by the engine, no node), every run's calls are in the language (grab move\* ungrab)\* (grab move\*)?, and the engine holds at most the one rook. |

## Left out

- Vision hand-pose detection is abstracted. `isOKGesture`'s "distance below 0.1" test is the `pinched` flag of an observation. The midpoint arithmetic of `gesturePoint` is an opaque `midpoint`.
- Both `isOKGesture` and `gesturePoint` ask for the same two joints, and a pinch implies the point exists. This relies on the joint lookup giving the same answer both times it is asked.
- A Vision request that throws is modelled like a request with no result: `processPoints` then receives nil.
- The `currentBuffer` gate and the `visionQueue.async` dispatch are left out, because their purpose is concurrency. Frames are handled one at a time, and each frame runs to completion before the next. The tracking-state guard is kept.
- The hand node's constraints are left out: `createConstraints`, `addConstraint`, `applyConstraints` and the `currentFrame!` unwrap they use. Its colour is left out too. These are foreign calls. `righthandnode` is never used by the source.
- The check at ViewController.swift:115-117 that `results` has one element is left out. It returns at the end of the closure and has no effect.
- Floating point is not modelled. Points and positions are reals, so the `Float(...)` conversions in `onPan` and CGFloat rounding are not modelled.
- The SceneKit scene graph is reduced to the nodes the engine adds to the root. The plane-renderer delegate methods (GameEngine.swift:128-155) are left out: they only update plane visuals.
- `print` output is left out, except that the model keeps the outcome `startPosition` logs ("no figure", "found").
- The `sceneView` implicitly-unwrapped property is assumed set. The tap and pan recognizers are installed in `setSceneView`, so no tap or pan can arrive before it.
- GameEngine.OnPan: requires `Valid(e)`, which says the movable node is in the scene. This is the representation invariant of modelling `movableNode` as an index into the scene. `Initial` satisfies it, and every operation preserves it.
- `MultipeerSession.swift`, `PositionUpdate.swift` and `ARAnchorExtension.swift` are left out. They are network I/O, archiving through library coding, and quaternion float numerics.
- The menu, colour and host/join view controllers are left out as UI navigation. So are the AR session error alert, `resetTracking` and anchor removal, which are UI and foreign calls.
