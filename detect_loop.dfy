/**
 * The detection loop of the demo page as an object: the fields the `detect`
 * tick reads and writes (React state and refs), and the tick itself in two
 * halves around the asynchronous estimateHands call.
 */
module DetectLoop {
  import opened Wrappers
  import opened Gestures
  import opened Player
  import opened Debounce

  class Detector {
    var lastGesture: Option<Gesture>
    var lastGestureTime: int
    var gesture: Option<string>
    var showOverlay: bool
    var error: Option<string>
    /** The in-flight flag guarding against overlapping ticks. */
    var isProcessing: bool

    /** The debounce-visible part of the object, as a value. */
    function State(): (s: LoopState)
      reads this
      ensures s.lastGesture == lastGesture && s.lastGestureTime == lastGestureTime
      ensures s.gesture == gesture && s.showOverlay == showOverlay && s.error == error
    {
      LoopState(lastGesture, lastGestureTime, gesture, showOverlay, error)
    }

    ghost predicate Valid()
      reads this
    {
      Consistent(State())
    }

    /** The initial values of the component's state and refs. */
    constructor ()
      ensures Valid() && State() == Initial && !isProcessing
    {
      lastGesture := None;
      lastGestureTime := 0;
      gesture := None;
      showOverlay := false;
      error := None;
      isProcessing := false;
    }

    /**
     * The tick up to the estimateHands call. A tick that finds the flag set
     * returns at once; as written, that return runs the `finally` block, which
     * clears the flag. Otherwise the flag is set and the estimation starts.
     */
    method BeginTick() returns (started: bool)
      modifies this`isProcessing
      ensures started == !old(isProcessing)
      ensures isProcessing == started
    {
      if isProcessing {
        isProcessing := false;
        return false;
      }
      isProcessing := true;
      started := true;
    }

    /**
     * The tick after estimateHands returned (or threw): classify the hand,
     * accept or suppress the gesture, dispatch the command on acceptance,
     * clear the display when appropriate, then clear the in-flight flag.
     */
    method CompleteTick(frame: Frame, now: int, env: PlayerEnv) returns (call: Option<Call>)
      requires Valid()
      modifies this
      ensures Valid()
      ensures var r := Tick(old(State()), Observe(frame), now, env);
        State() == r.state && call == r.call
      ensures !isProcessing
    {
      call := None;
      match frame {
        case EstimationFailed =>
          error := Some(DetectionError);
        case NoHand =>
          gesture := None;
          showOverlay := false;
        case Hand(lm) =>
          if |lm| < LandmarkCount {
            // drawHand reads a missing point and throws; the catch block runs
            error := Some(DetectionError);
          } else {
            call := Decide(DetectGesture(lm), now, env);
          }
      }
      isProcessing := false;
    }

    /**
     * The decision on a classified hand: accept and dispatch, clear the
     * display after the release window, or leave everything as it is.
     */
    method Decide(detected: Option<Gesture>, now: int, env: PlayerEnv) returns (call: Option<Call>)
      requires Valid()
      modifies this`gesture, this`lastGesture, this`lastGestureTime, this`showOverlay
      ensures Valid()
      ensures var r := Tick(old(State()), Sighted(detected), now, env);
        State() == r.state && call == r.call
    {
      call := None;
      if detected.Some? && detected != lastGesture && now - lastGestureTime > CooldownMs {
        gesture := Some(Label(detected.value));
        lastGesture := detected;
        lastGestureTime := now;
        showOverlay := true;
        call := Dispatch(detected.value, env);
      } else if detected.None? {
        if now - lastGestureTime > ReleaseMs {
          gesture := None;
          showOverlay := false;
        }
      }
    }

    /**
     * A whole tick with nothing interleaved: a tick that finds a tick in
     * flight does nothing but clear the flag; otherwise it runs to completion.
     */
    method Step(frame: Frame, now: int, env: PlayerEnv) returns (call: Option<Call>)
      requires Valid()
      modifies this
      ensures Valid() && !isProcessing
      ensures old(isProcessing) ==> State() == old(State()) && call == None
      ensures !old(isProcessing) ==>
        var r := Tick(old(State()), Observe(frame), now, env);
        State() == r.state && call == r.call
    {
      var started := BeginTick();
      if started {
        call := CompleteTick(frame, now, env);
      } else {
        call := None;
      }
    }

    /** The 300 ms overlay timer firing: hide the overlay and the label. */
    method OverlayTimerFires()
      requires Valid()
      modifies this`showOverlay, this`gesture
      ensures Valid() && !showOverlay && gesture == None
    {
      showOverlay := false;
      gesture := None;
    }
  }

  /**
   * A client of the class: a session that sees the Play hand at 1000 ms and
   * again at 1050 ms calls playVideo once; the second sighting falls inside
   * the cooldown (and repeats the last gesture) and issues nothing.
   */
  method HeldPlaySession(playHand: seq<Landmark>) returns (first: Option<Call>, second: Option<Call>)
    requires DetectGesture(playHand) == Some(Play)
    ensures first == Some(ApiCall(PlayVideo)) && second == None
  {
    var d := new Detector();
    var env := PlayerEnv(true, true, true);
    first := d.Step(Hand(playHand), 1000, env);
    assert d.lastGesture == Some(Play) && d.lastGestureTime == 1000;
    second := d.Step(Hand(playHand), 1050, env);
  }
}
