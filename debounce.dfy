/**
 * The accept / suppress / release decision of one detection tick, as a pure
 * transition over the state the tick reads and writes, and runs of ticks.
 */
module Debounce {
  import opened Wrappers
  import opened Gestures
  import opened Player

  /** Minimum time (ms) between two accepted gestures. */
  const CooldownMs := 200
  /** Time (ms) after the last acceptance before an empty hand clears the display. */
  const ReleaseMs := 500
  /** The banner text set when a tick fails. */
  const DetectionError := "Error detecting gestures. Please try refreshing the page."

  /**
   * What the hand-pose model returned for the frame: no hand (no prediction,
   * or a prediction without landmarks), a hand with its landmarks, or a
   * failure of the estimation call.
   */
  datatype Frame = NoHand | Hand(landmarks: seq<Landmark>) | EstimationFailed

  /** A frame after classification: what the debounce decision looks at. */
  datatype Observation = Empty | Sighted(detected: Option<Gesture>) | Failed

  /**
   * Runs the classifier on the hand, if there is one. The hand is drawn
   * before it is classified, and drawing a hand with fewer than
   * LandmarkCount points reads a missing point and throws, which the tick's
   * catch block reports like a failed estimation.
   */
  function Observe(frame: Frame): (o: Observation)
    ensures o.Sighted? <==> frame.Hand? && |frame.landmarks| >= LandmarkCount
    ensures o.Sighted? ==> o.detected == DetectGesture(frame.landmarks)
    ensures o.Failed? <==> frame.EstimationFailed? || (frame.Hand? && |frame.landmarks| < LandmarkCount)
    ensures o.Empty? <==> frame.NoHand?
  {
    match frame
    case NoHand => Empty
    case Hand(lm) => if |lm| < LandmarkCount then Failed else Sighted(DetectGesture(lm))
    case EstimationFailed => Failed
  }

  /**
   * The state a tick reads and writes: the last accepted gesture and its time,
   * the displayed gesture label, whether the overlay is shown, and the error
   * banner.
   */
  datatype LoopState = LoopState(
    lastGesture: Option<Gesture>,
    lastGestureTime: int,
    gesture: Option<string>,
    showOverlay: bool,
    error: Option<string>)

  /** The tick's outcome: the new state, the gesture accepted (if any), the call issued (if any). */
  datatype TickResult = TickResult(state: LoopState, accepted: Option<Gesture>, call: Option<Call>)

  /** The state when the detection loop starts: useState and useRef initial values. */
  const Initial := LoopState(None, 0, None, false, None)

  /**
   * What every reachable state satisfies: the displayed label is empty or the
   * label of the last accepted gesture, the overlay is shown only with a
   * label, and the last gesture and its time are set together (the time stays
   * at its initial 0 until the first acceptance).
   */
  ghost predicate Consistent(s: LoopState) {
    (s.gesture == None || (s.lastGesture.Some? && s.gesture == Some(Label(s.lastGesture.value)))) &&
    (s.showOverlay ==> s.gesture.Some?) &&
    s.lastGestureTime >= 0 &&
    (s.lastGesture.None? <==> s.lastGestureTime == 0)
  }

  /** A detection is accepted when it is a gesture, differs from the last one, and the cooldown has passed. */
  predicate Accepts(s: LoopState, detected: Option<Gesture>, now: int) {
    detected.Some? && detected != s.lastGesture && now - s.lastGestureTime > CooldownMs
  }

  /** The display cleared: no label, no overlay. */
  function Cleared(s: LoopState): (t: LoopState)
    ensures t.gesture == None && !t.showOverlay
    ensures t.(gesture := s.gesture, showOverlay := s.showOverlay) == s
  {
    s.(gesture := None, showOverlay := false)
  }

  /**
   * One detection tick after the estimation call returned (or failed) and the
   * hand, if any, was classified. `now` is the clock reading the tick takes
   * when a hand is present.
   */
  function Tick(s: LoopState, obs: Observation, now: int, env: PlayerEnv): (r: TickResult)
    ensures r.call == (if r.accepted.Some? then Dispatch(r.accepted.value, env) else None)
    ensures r.accepted.Some? <==> obs.Sighted? && Accepts(s, obs.detected, now)
    ensures r.accepted.Some? ==>
      r.accepted == obs.detected && r.state.lastGesture == r.accepted && r.state.lastGestureTime == now
    ensures r.accepted.None? ==>
      r.state.lastGesture == s.lastGesture && r.state.lastGestureTime == s.lastGestureTime
    ensures Consistent(s) ==> Consistent(r.state)
  {
    match obs
    case Failed =>
      TickResult(s.(error := Some(DetectionError)), None, None)
    case Empty =>
      TickResult(Cleared(s), None, None)
    case Sighted(detected) =>
      if Accepts(s, detected, now) then
        var g := detected.value;
        var t := s.(gesture := Some(Label(g)), lastGesture := detected, lastGestureTime := now,
                    showOverlay := true);
        TickResult(t, detected, Dispatch(g, env))
      else if detected.None? then
        TickResult(if now - s.lastGestureTime > ReleaseMs then Cleared(s) else s, None, None)
      else
        TickResult(s, None, None)
  }

  // ---------------------------------------------------------------------
  // One tick
  // ---------------------------------------------------------------------

  /**
   * An accepted detection records the gesture and the time, shows its label
   * with the overlay, and issues the dispatch.
   */
  lemma AcceptedTick(s: LoopState, d: Option<Gesture>, now: int, env: PlayerEnv)
    requires Accepts(s, d, now)
    ensures var g := d.value; var r := Tick(s, Sighted(d), now, env);
      r.accepted == Some(g) &&
      r.state == LoopState(Some(g), now, Some(Label(g)), true, s.error) &&
      r.call == Dispatch(g, env)
  {
  }

  /** A gesture that is not accepted (same as the last one, or too soon) changes nothing and issues nothing. */
  lemma SuppressedTick(s: LoopState, d: Option<Gesture>, now: int, env: PlayerEnv)
    requires d.Some? && !Accepts(s, d, now)
    ensures Tick(s, Sighted(d), now, env) == TickResult(s, None, None)
  {
  }

  /**
   * A hand without a gesture clears the display only once ReleaseMs have
   * passed since the last acceptance, and never touches the debounce state
   * or issues a call.
   */
  lemma ReleaseTick(s: LoopState, now: int, env: PlayerEnv)
    ensures var r := Tick(s, Sighted(None), now, env);
      r.call.None? && r.accepted.None? &&
      r.state == (if now - s.lastGestureTime > ReleaseMs then Cleared(s) else s)
  {
  }

  /** No hand clears the display at once, and nothing else. */
  lemma NoHandTick(s: LoopState, now: int, env: PlayerEnv)
    ensures Tick(s, Empty, now, env) == TickResult(Cleared(s), None, None)
  {
  }

  /** A failed estimation only raises the error banner. */
  lemma FailedTick(s: LoopState, now: int, env: PlayerEnv)
    ensures Tick(s, Failed, now, env) == TickResult(s.(error := Some(DetectionError)), None, None)
  {
  }

  /**
   * A hand with too few points never reaches the classifier: drawing it
   * throws, so the tick only raises the error banner.
   */
  lemma ShortHandTick(s: LoopState, lm: seq<Landmark>, now: int, env: PlayerEnv)
    requires |lm| < LandmarkCount
    ensures Tick(s, Observe(Hand(lm)), now, env) == TickResult(s.(error := Some(DetectionError)), None, None)
  {
  }

  /**
   * Debounce as written: once a gesture has been accepted, the same gesture
   * is never accepted again, however long it is held, until the other one is.
   */
  lemma SameGestureNeverReaccepted(s: LoopState, now: int, env: PlayerEnv)
    requires s.lastGesture.Some?
    ensures Tick(s, Sighted(s.lastGesture), now, env) == TickResult(s, None, None)
  {
  }

  // ---------------------------------------------------------------------
  // The tick as the mounted closure runs it
  // ---------------------------------------------------------------------

  /**
   * The detection closure is created once, when the component mounts, so it
   * reads `lastGesture` as it was then: empty. Its writes go to renders the
   * closure never sees. This is that tick: the cooldown is the only guard.
   */
  function MountedTick(s: LoopState, obs: Observation, now: int, env: PlayerEnv): (r: TickResult)
    ensures r.accepted.Some? <==> obs.Sighted? && obs.detected.Some? && now - s.lastGestureTime > CooldownMs
    ensures r.accepted.Some? ==> r.accepted == obs.detected && r.state.lastGestureTime == now
    ensures r.call == (if r.accepted.Some? then Dispatch(r.accepted.value, env) else None)
  {
    var t := Tick(s.(lastGesture := None), obs, now, env);
    t.(state := t.state.(lastGesture := if t.accepted.Some? then t.accepted else s.lastGesture))
  }

  /**
   * Holding the Play hand at 1000 ms and again at 1201 ms: the mounted
   * closure calls playVideo twice, while the debounce the comment on the
   * condition describes calls it once.
   */
  lemma MountedTickRepeatsHeldGesture(env: PlayerEnv)
    ensures var play := Sighted(Some(Play));
      var m1 := MountedTick(Initial, play, 1000, env);
      var m2 := MountedTick(m1.state, play, 1201, env);
      var t1 := Tick(Initial, play, 1000, env);
      var t2 := Tick(t1.state, play, 1201, env);
      m1.accepted == Some(Play) && m2.accepted == Some(Play) && m2.call == Dispatch(Play, env) &&
      t1.accepted == Some(Play) && t2.accepted == None && t2.call == None
  {
  }

  // ---------------------------------------------------------------------
  // Runs of ticks
  // ---------------------------------------------------------------------

  /** One tick's input: the classified frame and the clock reading. */
  datatype Event = Event(obs: Observation, now: int)

  /** An accepted gesture with the time it was accepted. */
  datatype Acceptance = Acceptance(gesture: Gesture, at: int)

  /** The outcome of a run of ticks. */
  datatype RunResult = RunResult(final: LoopState, accepted: seq<Acceptance>, calls: seq<Call>)

  /** The calls issued for a list of acceptances, in order, skipping those no channel could carry. */
  function CallsFor(acc: seq<Acceptance>, env: PlayerEnv): (calls: seq<Call>)
    ensures |calls| <= |acc|
    ensures env.apiReady || (env.iframeMounted && env.iframeHasWindow) ==> |calls| == |acc|
  {
    if acc == [] then []
    else
      var first := Dispatch(acc[0].gesture, env);
      (if first.Some? then [first.value] else []) + CallsFor(acc[1..], env)
  }

  /** Feeds the events to Tick in order, with the player environment fixed. */
  function Run(s: LoopState, events: seq<Event>, env: PlayerEnv): (r: RunResult)
    ensures |r.accepted| <= |events|
    decreases |events|
  {
    if events == [] then RunResult(s, [], [])
    else
      var t := Tick(s, events[0].obs, events[0].now, env);
      var rest := Run(t.state, events[1..], env);
      var acc := if t.accepted.Some? then [Acceptance(t.accepted.value, events[0].now)] else [];
      var call := if t.call.Some? then [t.call.value] else [];
      RunResult(rest.final, acc + rest.accepted, call + rest.calls)
  }

  /**
   * Over any run, the issued calls are exactly the dispatches of the accepted
   * gestures: one call per acceptance whenever a channel is available, none
   * for anything that was not accepted.
   */
  lemma {:induction false} RunCallsAreDispatches(s: LoopState, events: seq<Event>, env: PlayerEnv)
    ensures Run(s, events, env).calls == CallsFor(Run(s, events, env).accepted, env)
    decreases |events|
  {
    if events != [] {
      var t := Tick(s, events[0].obs, events[0].now, env);
      RunCallsAreDispatches(t.state, events[1..], env);
      var rest := Run(t.state, events[1..], env);
      var acc := (if t.accepted.Some? then [Acceptance(t.accepted.value, events[0].now)] else []) + rest.accepted;
      if t.accepted.Some? {
        assert acc[1..] == rest.accepted;
      } else {
        assert acc == rest.accepted;
      }
    }
  }

  /**
   * Over any run, the first acceptance differs from the state's last gesture
   * and comes more than CooldownMs after its time, and consecutive
   * acceptances alternate between the two gestures and lie more than
   * CooldownMs apart.
   */
  lemma {:induction false} RunAcceptancesAlternate(s: LoopState, events: seq<Event>, env: PlayerEnv)
    ensures var acc := Run(s, events, env).accepted;
      (|acc| > 0 ==> Some(acc[0].gesture) != s.lastGesture && acc[0].at - s.lastGestureTime > CooldownMs) &&
      (forall i :: 0 <= i < |acc| - 1 ==>
        acc[i].gesture != acc[i + 1].gesture && acc[i + 1].at - acc[i].at > CooldownMs)
    decreases |events|
  {
    if events != [] {
      var e := events[0];
      var t := Tick(s, e.obs, e.now, env);
      RunAcceptancesAlternate(t.state, events[1..], env);
      var rest := Run(t.state, events[1..], env).accepted;
      if t.accepted.Some? {
        var acc := [Acceptance(t.accepted.value, e.now)] + rest;
        forall i | 0 <= i < |acc| - 1
          ensures acc[i].gesture != acc[i + 1].gesture && acc[i + 1].at - acc[i].at > CooldownMs
        {
          if i > 0 { assert acc[i] == rest[i - 1] && acc[i + 1] == rest[i]; }
        }
      }
    }
  }

  /**
   * After any run, the state's last gesture and its time are those of the
   * run's last acceptance, or unchanged when nothing was accepted.
   */
  lemma {:induction false} RunRecordsLastAcceptance(s: LoopState, events: seq<Event>, env: PlayerEnv)
    ensures var r := Run(s, events, env); var acc := r.accepted;
      (|acc| > 0 ==> r.final.lastGesture == Some(acc[|acc| - 1].gesture) &&
                     r.final.lastGestureTime == acc[|acc| - 1].at) &&
      (|acc| == 0 ==> r.final.lastGesture == s.lastGesture && r.final.lastGestureTime == s.lastGestureTime)
    decreases |events|
  {
    if events != [] {
      var e := events[0];
      var t := Tick(s, e.obs, e.now, env);
      RunRecordsLastAcceptance(t.state, events[1..], env);
    }
  }

  /** Every state a run reaches from a consistent state is consistent. */
  lemma {:induction false} RunStaysConsistent(s: LoopState, events: seq<Event>, env: PlayerEnv)
    requires Consistent(s)
    ensures Consistent(Run(s, events, env).final)
    decreases |events|
  {
    if events != [] {
      var t := Tick(s, events[0].obs, events[0].now, env);
      RunStaysConsistent(t.state, events[1..], env);
    }
  }

  /** lastGestureTime never decreases over a run, whatever the clock readings. */
  lemma {:induction false} RunLastTimeMonotone(s: LoopState, events: seq<Event>, env: PlayerEnv)
    ensures Run(s, events, env).final.lastGestureTime >= s.lastGestureTime
    decreases |events|
  {
    if events != [] {
      var t := Tick(s, events[0].obs, events[0].now, env);
      RunLastTimeMonotone(t.state, events[1..], env);
    }
  }

  /** The observation carries no gesture other than g. */
  predicate OnlyGesture(o: Observation, g: Gesture) {
    o.Sighted? ==> o.detected == None || o.detected == Some(g)
  }

  /**
   * Holding the gesture last accepted — with any gaps, empty hands or
   * failures in between, at any times — never issues another call.
   */
  lemma {:induction false} HoldingNeverRedispatches(s: LoopState, g: Gesture, events: seq<Event>, env: PlayerEnv)
    requires s.lastGesture == Some(g)
    requires forall i :: 0 <= i < |events| ==> OnlyGesture(events[i].obs, g)
    ensures Run(s, events, env).calls == [] && Run(s, events, env).accepted == []
    decreases |events|
  {
    if events != [] {
      var t := Tick(s, events[0].obs, events[0].now, env);
      assert OnlyGesture(events[0].obs, g);
      assert t.state.lastGesture == Some(g);
      forall i | 0 <= i < |events[1..]| ensures OnlyGesture(events[1..][i].obs, g) {
        assert events[1..][i] == events[i + 1];
      }
      HoldingNeverRedispatches(t.state, g, events[1..], env);
    }
  }

  /** The calls of a run: those of its first tick, then those of the rest. */
  lemma RunCallsUnfold(s: LoopState, events: seq<Event>, env: PlayerEnv)
    requires events != []
    ensures var t := Tick(s, events[0].obs, events[0].now, env);
      Run(s, events, env).calls == (if t.call.Some? then [t.call.value] else []) + Run(t.state, events[1..], env).calls
  {
  }

  /**
   * Play, Play, Pause at 1000, 1050 and 1260 ms after the start of a session
   * with the IFrame API ready: the second Play falls inside the cooldown and
   * is dropped, the Pause is accepted, so exactly playVideo then pauseVideo
   * are called.
   */
  lemma PlayPlayPauseScenario()
    ensures var play, pause := Sighted(Some(Play)), Sighted(Some(Pause));
      var events := [Event(play, 1000), Event(play, 1050), Event(pause, 1260)];
      Run(Initial, events, PlayerEnv(true, true, true)).calls == [ApiCall(PlayVideo), ApiCall(PauseVideo)]
  {
    var env := PlayerEnv(true, true, true);
    var e1, e2, e3 := Event(Sighted(Some(Play)), 1000), Event(Sighted(Some(Play)), 1050), Event(Sighted(Some(Pause)), 1260);
    var t1 := Tick(Initial, e1.obs, e1.now, env);
    var t2 := Tick(t1.state, e2.obs, e2.now, env);
    var t3 := Tick(t2.state, e3.obs, e3.now, env);
    RunCallsUnfold(t2.state, [e3], env);
    assert [e3][1..] == [];
    RunCallsUnfold(t1.state, [e2, e3], env);
    assert [e2, e3][1..] == [e3];
    RunCallsUnfold(Initial, [e1, e2, e3], env);
    assert [e1, e2, e3][1..] == [e2, e3];
  }
}
