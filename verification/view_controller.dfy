/**
 * ViewController.swift: the rule by which the first hand-pose observation of
 * a camera frame drives the shared gesture recognizer, and the countdown
 * that detaches the left-hand node once the hand has not been seen for
 * TIME_OUT frames.
 *
 * Vision is abstracted: an observation carries its chirality and, when both
 * fingertip joints were recognised, whether they are pinched together and
 * their midpoint.
 */
module ViewController {
  import opened Basics
  import opened GestureRecognizer

  /** TIME_OUT: absent frames the hand node survives. */
  const TimeOut: int := 100

  datatype Chirality = Left | Right | Unknown

  /**
   * The thumb and index tips, present when Vision recognised both joints:
   * whether they are closer than the pinch distance, and their midpoint.
   */
  datatype Tips = Tips(pinched: bool, midpoint: Point)

  /** A VNHumanHandPoseObservation as far as this controller reads it. */
  datatype Observation = Observation(chirality: Chirality, tips: Option<Tips>)

  /** `isOKGesture`: false for no observation and for unrecognised joints. */
  function IsOKGesture(obs: Option<Observation>): (ok: bool)
    ensures ok ==> GesturePoint(obs).Some?
  {
    obs.Some? && obs.value.tips.Some? && obs.value.tips.value.pinched
  }

  /** `gesturePoint`: nil for no observation and for unrecognised joints. */
  function GesturePoint(obs: Option<Observation>): Option<Point> {
    if obs.Some? && obs.value.tips.Some? then Some(obs.value.tips.value.midpoint) else None
  }

  /** `templefthandobs`: the frame's first observation when it is of a left hand, else nil. */
  function LeftObservation(first: Option<Observation>): Option<Observation> {
    if first.Some? && first.value.chirality == Left then first else None
  }

  /**
   * The branch of `classifyHand` that calls the recognizer. A left-hand
   * pinch grabs when idle and moves when holding; a left hand without a
   * pinch ungrabs when holding; nothing else makes a call.
   */
  function Dispatch(first: Option<Observation>, holding: bool): (c: Option<Call>)
    ensures LeftObservation(first).None? ==> c.None?
    ensures LeftObservation(first).Some? ==> (c.Some? <==> IsOKGesture(first) || holding)
    ensures c.Some? ==> Allowed(holding, c.value)
    ensures c.Some? ==> (c.value.Ungrab? <==> !IsOKGesture(first))
    ensures c.Some? ==> c.value.point == GesturePoint(first)
    ensures c.Some? && c.value.Grab? ==> c.value.point.Some?
  {
    var obs := LeftObservation(first);
    if obs.None? then None
    else if IsOKGesture(obs) then
      if !holding then Some(Grab(GesturePoint(obs))) else Some(Move(GesturePoint(obs)))
    else if holding then Some(Ungrab(GesturePoint(obs)))
    else None
  }

  /** A HandNode object; `serial` stands for its identity. */
  datatype HandNode = HandNode(serial: nat)

  /**
   * `lefthandnode` and `timeoutleft`: the node, once created, whether it has
   * a parent in the scene, and the frames left before it is detached.
   */
  datatype HandSlot = HandSlot(node: Option<HandNode>, attached: bool, timeout: int)

  /** No node yet and the full timeout. */
  const InitialSlot := HandSlot(None, false, TimeOut)

  predicate SlotValid(s: HandSlot) {
    && 0 <= s.timeout <= TimeOut
    && (s.attached ==> s.node.Some?)
  }

  /**
   * `processPoints`, with `newNode` the node `HandNode(color:)` would create.
   * An observation creates the node if there is none, attaches it and
   * restarts the countdown. Without one, an existing node counts down one
   * frame, or is detached once the count is spent; the reference is kept.
   */
  function ProcessPoints(s: HandSlot, obs: Option<Observation>, newNode: HandNode): (t: HandSlot)
    ensures obs.Some? ==> t.attached && t.timeout == TimeOut
    ensures obs.Some? ==> t.node == (if s.node.Some? then s.node else Some(newNode))
    ensures obs.None? && s.node.None? ==> t == s
    ensures obs.None? && s.node.Some? && s.timeout > 0 ==> t == s.(timeout := s.timeout - 1)
    ensures obs.None? && s.node.Some? && s.timeout <= 0 ==> t == s.(attached := false)
    ensures s.node.Some? ==> t.node == s.node
    ensures SlotValid(s) ==> SlotValid(t)
  {
    if obs.Some? then
      var node := if s.node.Some? then s.node.value else newNode;
      HandSlot(Some(node), true, TimeOut)
    else if s.node.Some? then
      if s.timeout > 0 then s.(timeout := s.timeout - 1) else s.(attached := false)
    else s
  }

  /** `k` frames in a row without a left-hand observation. */
  function Absent(s: HandSlot, k: nat): HandSlot
    decreases k
  {
    if k == 0 then s else Absent(ProcessPoints(s, None, HandNode(0)), k - 1)
  }

  /**
   * Without observations the timeout falls by one per frame and never below
   * zero; the node stays attached while the count lasts and is detached on
   * the first frame after it is spent. With no node nothing changes.
   */
  lemma {:induction false} CountDown(s: HandSlot, k: nat)
    requires SlotValid(s)
    ensures s.node.None? ==> Absent(s, k) == s
    ensures Absent(s, k).node == s.node
    ensures s.node.Some? ==> Absent(s, k).timeout == (if k <= s.timeout then s.timeout - k else 0)
    ensures s.node.Some? ==> Absent(s, k).attached == (s.attached && k <= s.timeout)
    decreases k
  {
    if k > 0 {
      CountDown(ProcessPoints(s, None, HandNode(0)), k - 1);
    }
  }

  /**
   * After an observation the hand node stays attached through exactly
   * TIME_OUT frames without one, and the next such frame detaches it.
   */
  lemma HandNodeOutlivesTimeOut(s: HandSlot, obs: Observation, newNode: HandNode, k: nat)
    ensures Absent(ProcessPoints(s, Some(obs), newNode), k).attached <==> k <= TimeOut
    ensures Absent(ProcessPoints(s, Some(obs), newNode), k).timeout == if k <= TimeOut then TimeOut - k else 0
  {
    CountDown(ProcessPoints(s, Some(obs), newNode), k);
  }

  /**
   * Once enough absent frames have detached the hand node, the next
   * observation re-attaches that same node with a full count; the node
   * offered for creation is not used.
   */
  lemma ReattachKeepsNode(s: HandSlot, k: nat, obs: Observation, newNode: HandNode)
    requires SlotValid(s) && s.node.Some? && k > s.timeout
    ensures !Absent(s, k).attached
    ensures ProcessPoints(Absent(s, k), Some(obs), newNode) == HandSlot(s.node, true, TimeOut)
  {
    CountDown(s, k);
  }

  /** Everything the camera-frame callback sees: the tracking state, the first observation and the node it would create. */
  datatype Frame = Frame(trackingNormal: bool, first: Option<Observation>, newNode: HandNode)

  /** The controller's state that the hand path reads and writes. */
  datatype Controller = Controller(recognizer: Recognizer, hand: HandSlot)

  /** The state after some frames, the recognizer calls they made, and the callbacks those made, in order. */
  datatype Frames = Frames(after: Controller, calls: seq<Call>, notes: seq<Notification>)

  /** Every `startPosition` callback carries a point. */
  predicate StartPointsPresent(notes: seq<Notification>) {
    forall i :: 0 <= i < |notes| && notes[i].StartPosition? ==> notes[i].on.Some?
  }

  /**
   * `session(_:didUpdate:)` followed by `classifyHand`: a frame with
   * abnormal tracking is skipped; otherwise the dispatch rule makes at most
   * one call and `processPoints` then sees the left-hand observation, so a
   * right hand counts as an absent one.
   */
  function DidUpdate(c: Controller, f: Frame): (r: Frames)
    ensures !f.trackingNormal ==> r == Frames(c, [], [])
    ensures |r.calls| <= 1
    ensures Accepts(r.calls, c.recognizer.isHolding)
    ensures Run(c.recognizer, r.calls) == Step(r.after.recognizer, r.notes)
    ensures LeftObservation(f.first).None? ==> r.calls == [] && r.after.recognizer == c.recognizer
    ensures f.trackingNormal ==> r.after.hand == ProcessPoints(c.hand, LeftObservation(f.first), f.newNode)
    ensures StartPointsPresent(r.notes)
    ensures f.trackingNormal ==>
              r.calls == (var d := Dispatch(f.first, c.recognizer.isHolding); if d.Some? then [d.value] else [])
  {
    if !f.trackingNormal then Frames(c, [], [])
    else
      var call := Dispatch(f.first, c.recognizer.isHolding);
      var calls := if call.Some? then [call.value] else [];
      var step := Run(c.recognizer, calls);
      assert call.Some? ==> step == Apply(c.recognizer, call.value) by {
        if call.Some? { RunOne(c.recognizer, call.value); }
      }
      var hand := ProcessPoints(c.hand, LeftObservation(f.first), f.newNode);
      Frames(Controller(step.after, hand), calls, step.notes)
  }

  /** The frames handled one after another. */
  function RunFrames(c: Controller, frames: seq<Frame>): Frames
    decreases |frames|
  {
    if |frames| == 0 then Frames(c, [], [])
    else
      var first := DidUpdate(c, frames[0]);
      var rest := RunFrames(first.after, frames[1..]);
      Frames(rest.after, first.calls + rest.calls, first.notes + rest.notes)
  }

  /**
   * Driven only through the dispatch rule, the recognizer sees a call
   * sequence its protocol automaton accepts from the state it started in;
   * its holding state is the one those calls leave behind, its callbacks are
   * exactly those of the calls, and every `startPosition` carries a point.
   */
  lemma {:induction false} FramesFollowProtocol(c: Controller, frames: seq<Frame>)
    ensures Accepts(RunFrames(c, frames).calls, c.recognizer.isHolding)
    ensures Run(c.recognizer, RunFrames(c, frames).calls)
         == Step(RunFrames(c, frames).after.recognizer, RunFrames(c, frames).notes)
    ensures StartPointsPresent(RunFrames(c, frames).notes)
    decreases |frames|
  {
    if |frames| > 0 {
      var first := DidUpdate(c, frames[0]);
      var rest := RunFrames(first.after, frames[1..]);
      assert RunFrames(c, frames) == Frames(rest.after, first.calls + rest.calls, first.notes + rest.notes);
      FramesFollowProtocol(first.after, frames[1..]);
      var h := c.recognizer.isHolding;
      assert HoldingAfter(first.calls, h) == first.after.recognizer.isHolding by {
        RunChangesOnlyHoldingAndPoint(c.recognizer, first.calls);
      }
      AcceptsAppend(first.calls, rest.calls, h);
      RunAppend(c.recognizer, first.calls, rest.calls);
      StartPointsAppend(first.notes, rest.notes);
    }
  }

  lemma StartPointsAppend(a: seq<Notification>, b: seq<Notification>)
    requires StartPointsPresent(a) && StartPointsPresent(b)
    ensures StartPointsPresent(a + b)
  {
  }

  /**
   * From an idle recognizer, the calls the hand path makes match
   * (grab move* ungrab)* (grab move*)?: every move and ungrab has an open
   * grab before it, and no grab does.
   */
  lemma HandCallsAreBracketed(c: Controller, frames: seq<Frame>)
    requires !c.recognizer.isHolding
    ensures Accepts(RunFrames(c, frames).calls, false)
    ensures InLanguage(RunFrames(c, frames).calls)
    ensures var calls := RunFrames(c, frames).calls;
            forall i :: 0 <= i < |calls| ==> (calls[i].Grab? <==> !OpenAt(calls, i))
  {
    FramesFollowProtocol(c, frames);
    AcceptsIsTheLanguage(RunFrames(c, frames).calls);
    AcceptedCallsAreBracketed(RunFrames(c, frames).calls);
  }

  /**
   * Over any frames the hand slot stays valid, and once a hand node exists
   * it is never replaced by another.
   */
  lemma {:induction false} HandSlotStaysValid(c: Controller, frames: seq<Frame>)
    requires SlotValid(c.hand)
    ensures SlotValid(RunFrames(c, frames).after.hand)
    ensures c.hand.node.Some? ==> RunFrames(c, frames).after.hand.node == c.hand.node
    decreases |frames|
  {
    if |frames| > 0 {
      HandSlotStaysValid(DidUpdate(c, frames[0]).after, frames[1..]);
    }
  }
}
