/**
 * The running application: the tap and pan recognizers GameEngine installs
 * on the scene view and the ARSession frame callback of ViewController, all
 * acting on one engine and on the shared recognizer whose watcher is that
 * engine (GameEngine's initialiser registers it).
 */
module App {
  import opened Basics
  import GestureRecognizer
  import ViewController
  import GameEngine

  /**
   * One event: a tap with the plane hit-test results at its point, a pan
   * update, or a camera frame with the node hits at the point any
   * `startPosition` callback of that frame asks about.
   */
  datatype Event =
    | Tap(planeHits: seq<GameEngine.Transform>)
    | Pan(phase: GameEngine.PanPhase, location: Point)
    | CameraFrame(frame: ViewController.Frame, nodeHits: seq<GameEngine.NodeRef>)

  datatype State = State(controller: ViewController.Controller, engine: GameEngine.Engine)

  /** Once the scene view is set: the engine exists and watches the idle recognizer; no hand node yet. */
  const Start := State(
    ViewController.Controller(GestureRecognizer.Initial.(watched := true), ViewController.InitialSlot),
    GameEngine.Initial)

  /** The state after some events, the recognizer calls they made and what `startPosition` reported. */
  datatype Outcome = Outcome(after: State, calls: seq<GestureRecognizer.Call>, reports: seq<GameEngine.StartOutcome>)

  /** Number of `startPosition` callbacks. */
  function Starts(notes: seq<GestureRecognizer.Notification>): nat
    decreases |notes|
  {
    if |notes| == 0 then 0 else (if notes[0].StartPosition? then 1 else 0) + Starts(notes[1..])
  }

  /**
   * The callbacks delivered to the engine, in order. Each `startPosition`
   * yields one report, and since callbacks never change the engine, all of
   * them report the same thing.
   */
  function Deliver(e: GameEngine.Engine, notes: seq<GestureRecognizer.Notification>, hits: seq<GameEngine.NodeRef>)
    : (reports: seq<GameEngine.StartOutcome>)
    requires ViewController.StartPointsPresent(notes)
    ensures |reports| == Starts(notes)
    ensures forall i :: 0 <= i < |reports| ==> (reports[i] == GameEngine.NoFigure <==> e.movable.None?)
    ensures forall i :: 0 <= i < |reports| ==>
              (reports[i] == GameEngine.Found <==> e.movable.Some? && |hits| > 0 && hits[0] == GameEngine.Added(e.movable.value))
    decreases |notes|
  {
    if |notes| == 0 then []
    else
      var here := GameEngine.Watch(e, notes[0], hits);
      (if here.Some? then [here.value] else []) + Deliver(e, notes[1..], hits)
  }

  /**
   * One event. Taps and pans go to the engine and leave the recognizer and
   * the hand node alone; a camera frame goes through the hand path and its
   * callbacks reach the engine without changing it.
   */
  function Handle(s: State, catalog: GameEngine.Catalog, ev: Event): (o: Outcome)
    requires GameEngine.Valid(s.engine)
    ensures GameEngine.Valid(o.after.engine)
    ensures !ev.CameraFrame? ==> o.after.controller == s.controller && o.calls == [] && o.reports == []
    ensures ev.CameraFrame? ==> o.after.engine == s.engine
    ensures GestureRecognizer.Accepts(o.calls, s.controller.recognizer.isHolding)
    ensures GestureRecognizer.Run(s.controller.recognizer, o.calls).after == o.after.controller.recognizer
    ensures ev.Tap? ==> o.after.engine == GameEngine.OnTap(s.engine, catalog, ev.planeHits)
    ensures ev.Pan? ==> o.after.engine == GameEngine.OnPan(s.engine, ev.phase, ev.location)
    ensures ev.CameraFrame? ==>
              && o.after.controller == ViewController.DidUpdate(s.controller, ev.frame).after
              && o.calls == ViewController.DidUpdate(s.controller, ev.frame).calls
    ensures ev.CameraFrame? ==>
              o.reports == Deliver(s.engine, ViewController.DidUpdate(s.controller, ev.frame).notes, ev.nodeHits)
  {
    match ev
    case Tap(hits) =>
      Outcome(s.(engine := GameEngine.OnTap(s.engine, catalog, hits)), [], [])
    case Pan(phase, location) =>
      Outcome(s.(engine := GameEngine.OnPan(s.engine, phase, location)), [], [])
    case CameraFrame(frame, hits) =>
      var r := ViewController.DidUpdate(s.controller, frame);
      Outcome(s.(controller := r.after), r.calls, Deliver(s.engine, r.notes, hits))
  }

  /** The events handled one after another. */
  function RunEvents(s: State, catalog: GameEngine.Catalog, events: seq<Event>): (o: Outcome)
    requires GameEngine.Valid(s.engine)
    ensures GameEngine.Valid(o.after.engine)
    decreases |events|
  {
    if |events| == 0 then Outcome(s, [], [])
    else
      var first := Handle(s, catalog, events[0]);
      var rest := RunEvents(first.after, catalog, events[1..]);
      Outcome(rest.after, first.calls + rest.calls, first.reports + rest.reports)
  }

  /**
   * Whatever taps, pans and frames interleave, the recognizer's calls are
   * accepted by its protocol automaton from the state it started in, and its
   * final state is the one those calls produce.
   */
  lemma {:induction false} EventsFollowProtocol(s: State, catalog: GameEngine.Catalog, events: seq<Event>)
    requires GameEngine.Valid(s.engine)
    ensures GestureRecognizer.Accepts(RunEvents(s, catalog, events).calls, s.controller.recognizer.isHolding)
    ensures GestureRecognizer.Run(s.controller.recognizer, RunEvents(s, catalog, events).calls).after
         == RunEvents(s, catalog, events).after.controller.recognizer
    decreases |events|
  {
    if |events| > 0 {
      var first := Handle(s, catalog, events[0]);
      var rest := RunEvents(first.after, catalog, events[1..]);
      EventsFollowProtocol(first.after, catalog, events[1..]);
      GestureRecognizer.RunChangesOnlyHoldingAndPoint(s.controller.recognizer, first.calls);
      GestureRecognizer.AcceptsAppend(first.calls, rest.calls, s.controller.recognizer.isHolding);
      GestureRecognizer.RunAppend(s.controller.recognizer, first.calls, rest.calls);
    }
  }

  /** Either no piece has been spawned, or exactly one, the rook, is the movable node. */
  predicate OnePiece(e: GameEngine.Engine, catalog: GameEngine.Catalog) {
    || (e.movable.None? && e.scene == [])
    || (&& e.movable == Some(0)
        && |e.scene| == 1
        && GameEngine.FirstChild(catalog, GameEngine.MovablePiece).Some?
        && e.scene[0].name == GameEngine.FirstChild(catalog, GameEngine.MovablePiece).value.name)
  }

  /**
   * From the start, the engine holds at most one spawned node, the rook,
   * however many taps, pans and frames arrive; hand gestures never spawn.
   */
  lemma {:induction false} AtMostOnePiece(s: State, catalog: GameEngine.Catalog, events: seq<Event>)
    requires GameEngine.Valid(s.engine) && OnePiece(s.engine, catalog)
    ensures OnePiece(RunEvents(s, catalog, events).after.engine, catalog)
    decreases |events|
  {
    if |events| > 0 {
      var first := Handle(s, catalog, events[0]);
      assert OnePiece(first.after.engine, catalog) by {
        if events[0].Pan? && s.engine.movable.Some? && events[0].phase.Changed? {
          assert first.after.engine.scene[0].name == s.engine.scene[0].name;
        }
      }
      AtMostOnePiece(first.after, catalog, events[1..]);
    }
  }

  /**
   * The application starts idle with no piece, so every run from the start
   * calls the recognizer in (grab move* ungrab)* (grab move*)? and holds at
   * most the one rook.
   */
  lemma StartRuns(catalog: GameEngine.Catalog, events: seq<Event>)
    ensures GestureRecognizer.InLanguage(RunEvents(Start, catalog, events).calls)
    ensures OnePiece(RunEvents(Start, catalog, events).after.engine, catalog)
  {
    EventsFollowProtocol(Start, catalog, events);
    GestureRecognizer.AcceptsIsTheLanguage(RunEvents(Start, catalog, events).calls);
    AtMostOnePiece(Start, catalog, events);
  }
}
