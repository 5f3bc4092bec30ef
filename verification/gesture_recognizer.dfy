/**
 * GestureRecognizer.swift: the shared recognizer that turns grab / move /
 * ungrab calls into callbacks on an optional GestureWatcher, and the call
 * protocol those calls are expected to follow.
 */
module GestureRecognizer {
  import opened Basics

  /** One callback of the GestureWatcher protocol. */
  datatype Notification =
    | GestureSwitched(to: bool)
    | StartPosition(on: Option<Point>)
    | UpdatePosition(on: Option<Point>)
    | FinishPosition(on: Option<Point>)

  /** The recognizer's stored properties; `watched` says whether `watcher` is non-nil. */
  datatype Recognizer = Recognizer(isHolding: bool, gesturePoint: Option<Point>, watched: bool)

  /** The shared instance as first created: not holding, no point, no watcher. */
  const Initial := Recognizer(false, None, false)

  /** One call of the recognizer's public interface, with its point argument. */
  datatype Call = Grab(point: Option<Point>) | Move(point: Option<Point>) | Ungrab(point: Option<Point>)

  /** The recognizer after a call, with the callbacks the call made, in order. */
  datatype Step = Step(after: Recognizer, notes: seq<Notification>)

  /** `watcher?.f(...)`: the callback happens only when a watcher is set. */
  function Notify(r: Recognizer, n: Notification): seq<Notification> {
    if r.watched then [n] else []
  }

  /** An assignment to `isHolding`; its didSet observer reports the new value. */
  function SetHolding(r: Recognizer, v: bool): Step {
    var r' := r.(isHolding := v);
    Step(r', Notify(r', GestureSwitched(v)))
  }

  /**
   * `grab(on:)`. The switch is reported even when the recognizer was
   * already holding, because didSet runs on every assignment.
   */
  function DoGrab(r: Recognizer, point: Option<Point>): (s: Step)
    ensures s.after.isHolding && s.after.gesturePoint == point
    ensures s.after.watched == r.watched
    ensures r.watched ==> s.notes == [GestureSwitched(true), StartPosition(point)]
    ensures !r.watched ==> s.notes == []
  {
    var held := SetHolding(r, true);
    var r' := held.after.(gesturePoint := point);
    Step(r', held.notes + Notify(r', StartPosition(point)))
  }

  /** `move(on:)`: only the point changes, and no switch is reported. */
  function DoMove(r: Recognizer, point: Option<Point>): (s: Step)
    ensures s.after.isHolding == r.isHolding && s.after.gesturePoint == point
    ensures s.after.watched == r.watched
    ensures forall i :: 0 <= i < |s.notes| ==> !s.notes[i].GestureSwitched?
    ensures r.watched ==> s.notes == [UpdatePosition(point)]
    ensures !r.watched ==> s.notes == []
  {
    var r' := r.(gesturePoint := point);
    Step(r', Notify(r', UpdatePosition(point)))
  }

  /** `ungrab(on:)`: the mirror image of `grab(on:)`. */
  function DoUngrab(r: Recognizer, point: Option<Point>): (s: Step)
    ensures !s.after.isHolding && s.after.gesturePoint == point
    ensures s.after.watched == r.watched
    ensures r.watched ==> s.notes == [GestureSwitched(false), FinishPosition(point)]
    ensures !r.watched ==> s.notes == []
  {
    var held := SetHolding(r, false);
    var r' := held.after.(gesturePoint := point);
    Step(r', held.notes + Notify(r', FinishPosition(point)))
  }

  function Apply(r: Recognizer, c: Call): Step {
    match c
    case Grab(p) => DoGrab(r, p)
    case Move(p) => DoMove(r, p)
    case Ungrab(p) => DoUngrab(r, p)
  }

  /** The calls made one after another; the callbacks accumulate in order. */
  function Run(r: Recognizer, calls: seq<Call>): Step
    decreases |calls|
  {
    if |calls| == 0 then Step(r, [])
    else
      var first := Apply(r, calls[0]);
      var rest := Run(first.after, calls[1..]);
      Step(rest.after, first.notes + rest.notes)
  }

  // ---------------------------------------------------------------------
  // Reference definitions over call and callback sequences
  // ---------------------------------------------------------------------

  /** The holding state a call leaves behind when the state before it was `h`. */
  function Next(h: bool, c: Call): bool {
    match c
    case Grab(_) => true
    case Move(_) => h
    case Ungrab(_) => false
  }

  /** The holding state after `calls`, starting from `h`. */
  function HoldingAfter(calls: seq<Call>, h: bool): bool
    decreases |calls|
  {
    if |calls| == 0 then h else HoldingAfter(calls[1..], Next(h, calls[0]))
  }

  /** The point of the last call, or `p` when there is none. */
  function PointAfter(calls: seq<Call>, p: Option<Point>): Option<Point> {
    if |calls| == 0 then p else calls[|calls| - 1].point
  }

  /** What a watcher that remembers the last `gestureSwitched` value believes, starting from `v`. */
  function LastSwitch(notes: seq<Notification>, v: bool): bool
    decreases |notes|
  {
    if |notes| == 0 then v
    else
      var n := notes[|notes| - 1];
      if n.GestureSwitched? then n.to else LastSwitch(notes[..|notes| - 1], v)
  }

  /** Number of calls that assign `isHolding`. */
  function Assignments(calls: seq<Call>): nat
    decreases |calls|
  {
    if |calls| == 0 then 0
    else (if calls[0].Move? then 0 else 1) + Assignments(calls[1..])
  }

  /** Number of `gestureSwitched` callbacks. */
  function Switches(notes: seq<Notification>): nat
    decreases |notes|
  {
    if |notes| == 0 then 0
    else (if notes[0].GestureSwitched? then 1 else 0) + Switches(notes[1..])
  }

  // ---------------------------------------------------------------------
  // What running calls does
  // ---------------------------------------------------------------------

  lemma {:induction false} PointAfterCons(c: Call, rest: seq<Call>, p: Option<Point>)
    ensures PointAfter([c] + rest, p) == PointAfter(rest, c.point)
  {
  }

  /**
   * Any sequence of calls changes only `isHolding` and `gesturePoint`: the
   * last grab or ungrab decides the first and the last call's point the second.
   */
  lemma {:induction false} RunChangesOnlyHoldingAndPoint(r: Recognizer, calls: seq<Call>)
    ensures Run(r, calls).after
         == Recognizer(HoldingAfter(calls, r.isHolding), PointAfter(calls, r.gesturePoint), r.watched)
    decreases |calls|
  {
    if |calls| > 0 {
      var first := Apply(r, calls[0]);
      assert first.after == Recognizer(Next(r.isHolding, calls[0]), calls[0].point, r.watched);
      RunChangesOnlyHoldingAndPoint(first.after, calls[1..]);
      assert calls == [calls[0]] + calls[1..];
      PointAfterCons(calls[0], calls[1..], r.gesturePoint);
    }
  }

  /** With no watcher set, no call reports anything. */
  lemma {:induction false} UnwatchedRunIsSilent(r: Recognizer, calls: seq<Call>)
    requires !r.watched
    ensures Run(r, calls).notes == []
    ensures !Run(r, calls).after.watched
    decreases |calls|
  {
    if |calls| > 0 {
      UnwatchedRunIsSilent(Apply(r, calls[0]).after, calls[1..]);
    }
  }

  lemma {:induction false} LastSwitchAppend(a: seq<Notification>, b: seq<Notification>, v: bool)
    ensures LastSwitch(a + b, v) == LastSwitch(b, LastSwitch(a, v))
    decreases |b|
  {
    if |b| == 0 {
      assert a + b == a;
    } else {
      assert (a + b)[..|a + b| - 1] == a + b[..|b| - 1];
      assert (a + b)[|a + b| - 1] == b[|b| - 1];
      LastSwitchAppend(a, b[..|b| - 1], v);
    }
  }

  /**
   * A watcher that only remembers the last `gestureSwitched` value always
   * agrees with the recognizer's `isHolding` once the calls are over.
   */
  lemma {:induction false} WatcherStaysInSync(r: Recognizer, calls: seq<Call>)
    requires r.watched
    ensures LastSwitch(Run(r, calls).notes, r.isHolding) == Run(r, calls).after.isHolding
    decreases |calls|
  {
    if |calls| > 0 {
      var first := Apply(r, calls[0]);
      var rest := Run(first.after, calls[1..]);
      WatcherStaysInSync(first.after, calls[1..]);
      LastSwitchAppend(first.notes, rest.notes, r.isHolding);
      assert LastSwitch(first.notes, r.isHolding) == first.after.isHolding by {
        match calls[0]
        case Grab(p) =>
          assert first.notes == [GestureSwitched(true)] + [StartPosition(p)];
        case Move(p) =>
        case Ungrab(p) =>
          assert first.notes == [GestureSwitched(false)] + [FinishPosition(p)];
      }
    }
  }

  lemma {:induction false} SwitchesAppend(a: seq<Notification>, b: seq<Notification>)
    ensures Switches(a + b) == Switches(a) + Switches(b)
    decreases |a|
  {
    if |a| == 0 {
      assert a + b == b;
    } else {
      assert (a + b)[1..] == a[1..] + b;
      SwitchesAppend(a[1..], b);
    }
  }

  /**
   * With a watcher, every grab and every ungrab reports exactly one switch,
   * even when `isHolding` already had that value, and every call makes one
   * further callback of its own.
   */
  lemma {:induction false} EveryAssignmentReports(r: Recognizer, calls: seq<Call>)
    requires r.watched
    ensures Switches(Run(r, calls).notes) == Assignments(calls)
    ensures |Run(r, calls).notes| == |calls| + Assignments(calls)
    decreases |calls|
  {
    if |calls| > 0 {
      var first := Apply(r, calls[0]);
      var rest := Run(first.after, calls[1..]);
      EveryAssignmentReports(first.after, calls[1..]);
      SwitchesAppend(first.notes, rest.notes);
      match calls[0]
      case Grab(p) =>
        assert Switches(first.notes) == 1 by {
          assert first.notes[1..] == [StartPosition(p)];
          assert [StartPosition(p)][1..] == [];
        }
      case Move(p) =>
        assert Switches(first.notes) == 0 by {
          assert first.notes[1..] == [];
        }
      case Ungrab(p) =>
        assert Switches(first.notes) == 1 by {
          assert first.notes[1..] == [FinishPosition(p)];
          assert [FinishPosition(p)][1..] == [];
        }
    }
  }

  // ---------------------------------------------------------------------
  // The call protocol: (grab move* ungrab)* (grab move*)?
  // ---------------------------------------------------------------------

  /** Whether call `c` is the one the protocol allows when the holding state is `h`. */
  predicate Allowed(h: bool, c: Call) {
    c.Grab? <==> !h
  }

  /**
   * The two-state automaton of (grab move* ungrab)* (grab move*)?, run from
   * state `h`: grab only when idle, move and ungrab only when holding.
   */
  predicate Accepts(calls: seq<Call>, h: bool)
    decreases |calls|
  {
    |calls| == 0 || (Allowed(h, calls[0]) && Accepts(calls[1..], Next(h, calls[0])))
  }

  /** Some earlier grab is still open at position `i`: no ungrab came after it. */
  ghost predicate OpenAt(calls: seq<Call>, i: int)
    requires 0 <= i <= |calls|
  {
    exists j :: 0 <= j < i && calls[j].Grab? && NoUngrabBetween(calls, j, i)
  }

  ghost predicate NoUngrabBetween(calls: seq<Call>, j: int, i: int)
    requires 0 <= j < i <= |calls|
  {
    forall k :: j < k < i ==> !calls[k].Ungrab?
  }

  lemma {:induction false} HoldingAfterSnoc(calls: seq<Call>, c: Call, h: bool)
    ensures HoldingAfter(calls + [c], h) == Next(HoldingAfter(calls, h), c)
    decreases |calls|
  {
    if |calls| == 0 {
      assert calls + [c] == [c];
    } else {
      assert (calls + [c])[1..] == calls[1..] + [c];
      HoldingAfterSnoc(calls[1..], c, Next(h, calls[0]));
    }
  }

  lemma {:induction false} AcceptsSnoc(calls: seq<Call>, c: Call, h: bool)
    ensures Accepts(calls + [c], h) <==> Accepts(calls, h) && Allowed(HoldingAfter(calls, h), c)
    decreases |calls|
  {
    if |calls| == 0 {
      assert calls + [c] == [c];
      assert [c][1..] == [];
    } else {
      assert (calls + [c])[1..] == calls[1..] + [c];
      AcceptsSnoc(calls[1..], c, Next(h, calls[0]));
    }
  }

  /** The automaton reads a concatenation piece by piece, and so does the holding state. */
  lemma {:induction false} AcceptsAppend(a: seq<Call>, b: seq<Call>, h: bool)
    ensures Accepts(a + b, h) <==> Accepts(a, h) && Accepts(b, HoldingAfter(a, h))
    ensures HoldingAfter(a + b, h) == HoldingAfter(b, HoldingAfter(a, h))
    decreases |a|
  {
    if |a| == 0 {
      assert a + b == b;
    } else {
      assert (a + b)[1..] == a[1..] + b;
      AcceptsAppend(a[1..], b, Next(h, a[0]));
    }
  }

  /** Running a single call is applying it. */
  lemma RunOne(r: Recognizer, c: Call)
    ensures Run(r, [c]) == Apply(r, c)
  {
  }

  /** Running a concatenation runs its pieces one after the other. */
  lemma {:induction false} RunAppend(r: Recognizer, a: seq<Call>, b: seq<Call>)
    ensures Run(r, a + b).after == Run(Run(r, a).after, b).after
    ensures Run(r, a + b).notes == Run(r, a).notes + Run(Run(r, a).after, b).notes
    decreases |a|
  {
    if |a| == 0 {
      assert a + b == b;
      assert Run(r, a) == Step(r, []);
    } else {
      var first := Apply(r, a[0]);
      var ab := a + b;
      assert ab[0] == a[0];
      assert ab[1..] == a[1..] + b;
      RunAppend(first.after, a[1..], b);
      var ra := Run(first.after, a[1..]);
      var rb := Run(ra.after, b);
      var rab := Run(first.after, a[1..] + b);
      assert rab.notes == ra.notes + rb.notes;
      calc {
        Run(r, ab).notes;
        first.notes + rab.notes;
        first.notes + (ra.notes + rb.notes);
        (first.notes + ra.notes) + rb.notes;
        Run(r, a).notes + rb.notes;
      }
    }
  }

  /**
   * The automaton accepts exactly the sequences in which each call is the
   * one allowed by the holding state its predecessors left behind.
   */
  lemma {:induction false} AcceptsIffEveryCallAllowed(calls: seq<Call>, h: bool)
    ensures Accepts(calls, h)
        <==> forall i :: 0 <= i < |calls| ==> Allowed(HoldingAfter(calls[..i], h), calls[i])
    decreases |calls|
  {
    if |calls| > 0 {
      var init := calls[..|calls| - 1];
      var c := calls[|calls| - 1];
      assert calls == init + [c];
      AcceptsSnoc(init, c, h);
      AcceptsIffEveryCallAllowed(init, h);
      forall i | 0 <= i < |init|
        ensures calls[..i] == init[..i] && calls[i] == init[i]
      {
      }
    }
  }

  /** The holding state after a prefix is true exactly when a grab in it is still open. */
  lemma {:induction false} OpenIffHolding(calls: seq<Call>, i: int)
    requires 0 <= i <= |calls|
    ensures OpenAt(calls, i) <==> HoldingAfter(calls[..i], false)
    decreases i
  {
    if i > 0 {
      OpenIffHolding(calls, i - 1);
      assert calls[..i] == calls[..i - 1] + [calls[i - 1]];
      HoldingAfterSnoc(calls[..i - 1], calls[i - 1], false);
      var c := calls[i - 1];
      if c.Grab? {
        assert NoUngrabBetween(calls, i - 1, i);
      } else if c.Ungrab? {
        forall j | 0 <= j < i && calls[j].Grab?
          ensures !NoUngrabBetween(calls, j, i)
        {
          assert calls[i - 1].Ungrab?;
        }
      } else {
        if OpenAt(calls, i) {
          var j :| 0 <= j < i && calls[j].Grab? && NoUngrabBetween(calls, j, i);
          assert j != i - 1;
          assert NoUngrabBetween(calls, j, i - 1);
        }
        if OpenAt(calls, i - 1) {
          var j :| 0 <= j < i - 1 && calls[j].Grab? && NoUngrabBetween(calls, j, i - 1);
          assert NoUngrabBetween(calls, j, i);
        }
      }
    }
  }

  /** Every call in `s[lo..hi]` is a move. */
  predicate AllMoves(s: seq<Call>, lo: int, hi: int)
    requires 0 <= lo <= hi <= |s|
  {
    forall i :: lo <= i < hi ==> s[i].Move?
  }

  /** A finished session: grab move* ungrab. */
  predicate Session(s: seq<Call>) {
    |s| >= 2 && s[0].Grab? && s[|s| - 1].Ungrab? && AllMoves(s, 1, |s| - 1)
  }

  /** An unfinished session: grab move*. */
  predicate OpenSession(s: seq<Call>) {
    |s| >= 1 && s[0].Grab? && AllMoves(s, 1, |s|)
  }

  /** The language (grab move* ungrab)* (grab move*)?: finished sessions, then at most one unfinished one. */
  ghost predicate InLanguage(calls: seq<Call>)
    decreases |calls|
  {
    || |calls| == 0
    || OpenSession(calls)
    || exists n :: 2 <= n <= |calls| && Session(calls[..n]) && InLanguage(calls[n..])
  }

  lemma {:induction false} MovesKeepHolding(s: seq<Call>)
    requires AllMoves(s, 0, |s|)
    ensures Accepts(s, true) && HoldingAfter(s, true)
    decreases |s|
  {
    if |s| > 0 {
      MovesKeepHolding(s[1..]);
    }
  }

  lemma OpenSessionAccepted(s: seq<Call>)
    requires OpenSession(s)
    ensures Accepts(s, false) && HoldingAfter(s, false)
  {
    MovesKeepHolding(s[1..]);
  }

  lemma SessionAccepted(s: seq<Call>)
    requires Session(s)
    ensures Accepts(s, false) && !HoldingAfter(s, false)
  {
    var init := s[..|s| - 1];
    assert s == init + [s[|s| - 1]];
    OpenSessionAccepted(init);
    AcceptsSnoc(init, s[|s| - 1], false);
    HoldingAfterSnoc(init, s[|s| - 1], false);
  }

  /**
   * From the holding state the automaton reads moves up to the first
   * ungrab, if any, and is idle after it; `k` is that ungrab's position, or
   * -1 when all calls are moves.
   */
  lemma {:induction false} FirstUngrab(t: seq<Call>) returns (k: int)
    requires Accepts(t, true)
    ensures k == -1 ==> AllMoves(t, 0, |t|)
    ensures k != -1 ==> 0 <= k < |t| && t[k].Ungrab? && AllMoves(t, 0, k) && Accepts(t[k + 1..], false)
    decreases |t|
  {
    if |t| == 0 {
      k := -1;
    } else if t[0].Ungrab? {
      k := 0;
    } else {
      var k' := FirstUngrab(t[1..]);
      k := if k' == -1 then -1 else k' + 1;
      if k' != -1 {
        assert t[k + 1..] == t[1..][k' + 1..];
      }
    }
  }

  /** The automaton, run from idle, accepts exactly the language (grab move* ungrab)* (grab move*)?. */
  lemma {:induction false} AcceptsIsTheLanguage(calls: seq<Call>)
    ensures Accepts(calls, false) <==> InLanguage(calls)
    decreases |calls|
  {
    if |calls| > 0 {
      if Accepts(calls, false) {
        var k := FirstUngrab(calls[1..]);
        if k != -1 {
          var n := k + 2;
          assert Session(calls[..n]);
          assert calls[n..] == calls[1..][k + 1..];
          AcceptsIsTheLanguage(calls[n..]);
        }
      }
      if InLanguage(calls) && !OpenSession(calls) {
        var n :| 2 <= n <= |calls| && Session(calls[..n]) && InLanguage(calls[n..]);
        assert calls == calls[..n] + calls[n..];
        SessionAccepted(calls[..n]);
        AcceptsIsTheLanguage(calls[n..]);
        AcceptsAppend(calls[..n], calls[n..], false);
      }
      if OpenSession(calls) {
        OpenSessionAccepted(calls);
      }
    }
  }

  /**
   * A sequence is accepted from idle exactly when every move and ungrab has
   * an open grab before it and no grab does.
   */
  lemma {:induction false} AcceptedCallsAreBracketed(calls: seq<Call>)
    ensures Accepts(calls, false) <==> forall i :: 0 <= i < |calls| ==> (calls[i].Grab? <==> !OpenAt(calls, i))
  {
    AcceptsIffEveryCallAllowed(calls, false);
    forall i | 0 <= i < |calls|
      ensures (calls[i].Grab? <==> !OpenAt(calls, i)) <==> Allowed(HoldingAfter(calls[..i], false), calls[i])
    {
      OpenIffHolding(calls, i);
    }
  }
}
