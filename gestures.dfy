/**
 * The gesture classifier of the demo page (`detectGesture`): a pure function
 * from the 21 hand landmarks reported by the hand-pose model to an optional
 * gesture. Coordinates are image pixels; a smaller y is higher in the frame.
 */
module Gestures {
  import opened Wrappers

  /** One tracked point of the hand skeleton. */
  datatype Landmark = Landmark(x: int, y: int, z: int)

  /** The keys of the source's GESTURE_MAP. */
  datatype Gesture = Play | Pause

  /** The number of landmarks in a complete hand skeleton. */
  const LandmarkCount := 21
  /** Landmark indices: the wrist and the five fingertips. */
  const Wrist := 0
  const ThumbTip := 4
  const IndexTip := 8
  const MiddleTip := 12
  const RingTip := 16
  const PinkyTip := 20
  /** How far (in pixels) the index tip must clear the runner-up tip for Play. */
  const PlayMargin := 30
  /** How far (in pixels) every tip must be above the wrist for Pause. */
  const PauseMargin := 30

  /** The label GESTURE_MAP shows for a gesture. */
  function Label(g: Gesture): (s: string)
    ensures s == (if g == Play then "Play" else "Pause")
  {
    match g
    case Play => "Play"
    case Pause => "Pause"
  }

  // ---------------------------------------------------------------------
  // Helpers standing for Math.min(...xs) and [...xs].sort((a, b) => a - b)
  // ---------------------------------------------------------------------

  ghost predicate SortedAscending(s: seq<int>) {
    forall i, j :: 0 <= i < j < |s| ==> s[i] <= s[j]
  }

  /** Math.min over a non-empty list: a member that no member undercuts. */
  function Min(s: seq<int>): (m: int)
    requires |s| > 0
    ensures m in s
    ensures forall i :: 0 <= i < |s| ==> m <= s[i]
  {
    if |s| == 1 then s[0]
    else
      var rest := Min(s[1..]);
      if s[0] <= rest then s[0] else rest
  }

  /** Inserts x into an ascending list, keeping it ascending. */
  function Insert(x: int, s: seq<int>): (r: seq<int>)
    requires SortedAscending(s)
    ensures SortedAscending(r)
    ensures multiset(r) == multiset(s) + multiset{x}
    ensures |r| == |s| + 1
    ensures r[0] == x || (s != [] && r[0] == s[0])
  {
    if s == [] || x <= s[0] then [x] + s
    else
      assert s == [s[0]] + s[1..];
      [s[0]] + Insert(x, s[1..])
  }

  /** A numeric ascending sort: the result is ordered and a permutation of the input. */
  function SortAscending(s: seq<int>): (r: seq<int>)
    ensures SortedAscending(r)
    ensures multiset(r) == multiset(s)
    ensures |r| == |s|
  {
    if s == [] then []
    else
      assert s == [s[0]] + s[1..];
      Insert(s[0], SortAscending(s[1..]))
  }

  // ---------------------------------------------------------------------
  // The classifier
  // ---------------------------------------------------------------------

  /** tips.every(y => y < bound) */
  predicate Every(tips: seq<int>, bound: int) {
    forall i :: 0 <= i < |tips| ==> tips[i] < bound
  }

  /** The y-coordinates of the thumb, index, middle, ring and pinky tips, in that order. */
  function TipYs(lm: seq<Landmark>): (tips: seq<int>)
    requires |lm| >= LandmarkCount
    ensures |tips| == 5 && tips[1] == lm[IndexTip].y
  {
    [lm[ThumbTip].y, lm[IndexTip].y, lm[MiddleTip].y, lm[RingTip].y, lm[PinkyTip].y]
  }

  /**
   * detectGesture: a hand with fewer than LandmarkCount points gives no
   * gesture; otherwise the decision is taken on its fingertip and wrist
   * heights by ClassifyTips.
   */
  function DetectGesture(lm: seq<Landmark>): (g: Option<Gesture>)
    ensures |lm| < LandmarkCount ==> g == None
  {
    if |lm| < LandmarkCount then None
    else ClassifyTips(TipYs(lm), lm[IndexTip].y, lm[Wrist].y)
  }

  /**
   * The body of detectGesture after its length check: Play when the index tip
   * is the smallest tip y and the second-smallest tip y exceeds it by more
   * than PlayMargin; otherwise Pause when every tip is above the wrist by more
   * than PauseMargin; otherwise none.
   */
  function ClassifyTips(tips: seq<int>, indexY: int, wristY: int): (g: Option<Gesture>)
    requires |tips| == 5
  {
    var minTipY := Min(tips);
    var sortedTips := SortAscending(tips);
    var secondMinTipY := sortedTips[1];
    if indexY == minTipY && secondMinTipY - indexY > PlayMargin then Some(Play)
    else if Every(tips, wristY - PauseMargin) then Some(Pause)
    else None
  }

  // ---------------------------------------------------------------------
  // What the classifier means, stated without sorting
  // ---------------------------------------------------------------------

  /** Every other fingertip is more than PlayMargin pixels below the index tip. */
  predicate IndexClearlyHighest(lm: seq<Landmark>)
    requires |lm| >= LandmarkCount
  {
    var indexY := lm[IndexTip].y;
    lm[ThumbTip].y - indexY > PlayMargin && lm[MiddleTip].y - indexY > PlayMargin &&
    lm[RingTip].y - indexY > PlayMargin && lm[PinkyTip].y - indexY > PlayMargin
  }

  /** Every fingertip is more than PauseMargin pixels above the wrist. */
  predicate PalmAboveWrist(lm: seq<Landmark>)
    requires |lm| >= LandmarkCount
  {
    var bound := lm[Wrist].y - PauseMargin;
    lm[ThumbTip].y < bound && lm[IndexTip].y < bound && lm[MiddleTip].y < bound &&
    lm[RingTip].y < bound && lm[PinkyTip].y < bound
  }

  /**
   * Once the smallest element of a sorted permutation is matched with the
   * element at position p of the original, the rest of the sorted list is a
   * permutation of the original without position p.
   */
  lemma SortedTailIsRest(s: seq<int>, r: seq<int>, p: nat)
    requires p < |s| && |r| == |s|
    requires multiset(r) == multiset(s) && r[0] == s[p]
    ensures multiset(r[1..]) == multiset(s[..p] + s[p + 1..])
  {
    assert r == [r[0]] + r[1..];
    assert s == s[..p] + [s[p]] + s[p + 1..];
    calc {
      multiset(s);
      multiset(s[..p] + [s[p]] + s[p + 1..]);
      multiset(s[..p]) + multiset{s[p]} + multiset(s[p + 1..]);
      multiset(s[..p] + s[p + 1..]) + multiset{s[p]};
    }
    assert multiset(r) == multiset(r[1..]) + multiset{r[0]};
    assert multiset(r[1..]) == multiset(r) - multiset{r[0]};
  }

  /**
   * Sorting a list whose position p holds its minimum puts that element first
   * and the other positions, in some order, after it.
   */
  lemma SortSplitsOffMin(s: seq<int>, p: nat)
    requires p < |s|
    requires forall i :: 0 <= i < |s| ==> s[p] <= s[i]
    ensures var r := SortAscending(s);
      r[0] == s[p] && multiset(r[1..]) == multiset(s[..p] + s[p + 1..])
  {
    var r := SortAscending(s);
    assert r[0] in multiset(s);
    assert s[p] in multiset(r);
    var j :| 0 <= j < |r| && r[j] == s[p];
    assert r[0] <= r[j];
    SortedTailIsRest(s, r, p);
  }

  /** Every position other than 1 is a member of the list without position 1. */
  lemma OthersContain(s: seq<int>, i: nat)
    requires 2 <= |s| && i < |s| && i != 1
    ensures s[i] in s[..1] + s[2..]
  {
    var others := s[..1] + s[2..];
    if i == 0 { assert others[0] == s[0]; } else { assert others[i - 1] == s[i]; }
  }

  /**
   * When position 1 is the minimum and the second-smallest value exceeds it
   * by more than PlayMargin, every other position exceeds it by that much.
   */
  lemma RunnerUpBoundsOthers(s: seq<int>, i: nat)
    requires 2 <= |s| && i < |s| && i != 1
    requires s[1] == Min(s) && SortAscending(s)[1] - s[1] > PlayMargin
    ensures s[i] - s[1] > PlayMargin
  {
    var r := SortAscending(s);
    SortSplitsOffMin(s, 1);
    OthersContain(s, i);
    assert s[i] in multiset(r[1..]);
    var j :| 1 <= j < |r| && r[j] == s[i];
    assert r[1] <= r[j];
  }

  /** Every value off position 1 exceeds position 1 by more than PlayMargin. */
  lemma OthersAbove(s: seq<int>)
    requires |s| >= 2
    requires forall i :: 0 <= i < |s| && i != 1 ==> s[i] - s[1] > PlayMargin
    ensures forall x :: x in s[..1] + s[2..] ==> x - s[1] > PlayMargin
  {
    var others := s[..1] + s[2..];
    forall x | x in others ensures x - s[1] > PlayMargin {
      var j :| 0 <= j < |others| && others[j] == x;
      if j > 0 { assert others[j] == s[j + 1]; }
    }
  }

  /**
   * When every other position exceeds position 1 by more than PlayMargin,
   * position 1 is the minimum and the second-smallest value exceeds it by
   * more than PlayMargin.
   */
  lemma OthersBoundRunnerUp(s: seq<int>)
    requires |s| >= 2
    requires forall i :: 0 <= i < |s| && i != 1 ==> s[i] - s[1] > PlayMargin
    ensures s[1] == Min(s) && SortAscending(s)[1] - s[1] > PlayMargin
  {
    var k :| 0 <= k < |s| && s[k] == Min(s);
    var r := SortAscending(s);
    SortSplitsOffMin(s, 1);
    assert r[1..][0] == r[1];
    assert r[1] in multiset(r[1..]);
    assert r[1] in s[..1] + s[2..];
    OthersAbove(s);
  }

  /** IndexClearlyHighest, read on the list of tip heights. */
  lemma ClearlyHighestOnTips(lm: seq<Landmark>)
    requires |lm| >= LandmarkCount
    ensures IndexClearlyHighest(lm) <==>
      forall i :: 0 <= i < 5 && i != 1 ==> TipYs(lm)[i] - TipYs(lm)[1] > PlayMargin
  {
    var t := TipYs(lm);
    if forall i :: 0 <= i < 5 && i != 1 ==> t[i] - t[1] > PlayMargin {
      assert t[0] - t[1] > PlayMargin && t[2] - t[1] > PlayMargin;
      assert t[3] - t[1] > PlayMargin && t[4] - t[1] > PlayMargin;
    }
  }

  /** The Play branch of ClassifyTips, on its own. */
  lemma ClassifyTipsPlay(tips: seq<int>, indexY: int, wristY: int)
    requires |tips| == 5
    ensures ClassifyTips(tips, indexY, wristY) == Some(Play) <==>
      indexY == Min(tips) && SortAscending(tips)[1] - indexY > PlayMargin
  {
  }

  /** A hand whose index tip is clearly highest is classified Play. */
  lemma ClearImpliesPlay(lm: seq<Landmark>)
    requires |lm| >= LandmarkCount && IndexClearlyHighest(lm)
    ensures DetectGesture(lm) == Some(Play)
  {
    ClearlyHighestOnTips(lm);
    OthersBoundRunnerUp(TipYs(lm));
  }

  /** A hand classified Play has its index tip clearly highest. */
  lemma PlayImpliesClear(lm: seq<Landmark>)
    requires |lm| >= LandmarkCount && DetectGesture(lm) == Some(Play)
    ensures IndexClearlyHighest(lm)
  {
    var tips := TipYs(lm);
    ClassifyTipsPlay(tips, lm[IndexTip].y, lm[Wrist].y);
    ClearlyHighestOnTips(lm);
    forall i | 0 <= i < 5 && i != 1 ensures tips[i] - tips[1] > PlayMargin {
      RunnerUpBoundsOthers(tips, i);
    }
  }

  /**
   * Play is reported exactly when every other fingertip is more than
   * PlayMargin pixels lower than the index tip.
   */
  lemma PlayIff(lm: seq<Landmark>)
    ensures DetectGesture(lm) == Some(Play) <==> |lm| >= LandmarkCount && IndexClearlyHighest(lm)
  {
    if |lm| >= LandmarkCount {
      if IndexClearlyHighest(lm) {
        ClearImpliesPlay(lm);
      }
      if DetectGesture(lm) == Some(Play) {
        PlayImpliesClear(lm);
      }
    }
  }

  /** PalmAboveWrist, read as tips.every(y => y < wristY - PauseMargin). */
  lemma PalmAboveWristOnTips(lm: seq<Landmark>)
    requires |lm| >= LandmarkCount
    ensures PalmAboveWrist(lm) <==> Every(TipYs(lm), lm[Wrist].y - PauseMargin)
  {
    var t := TipYs(lm);
    if PalmAboveWrist(lm) {
      forall i | 0 <= i < |t| ensures t[i] < lm[Wrist].y - PauseMargin {
        assert i == 0 || i == 1 || i == 2 || i == 3 || i == 4;
      }
    }
    if Every(t, lm[Wrist].y - PauseMargin) {
      assert t[0] < lm[Wrist].y - PauseMargin && t[1] < lm[Wrist].y - PauseMargin;
      assert t[2] < lm[Wrist].y - PauseMargin && t[3] < lm[Wrist].y - PauseMargin;
      assert t[4] < lm[Wrist].y - PauseMargin;
    }
  }

  /**
   * Pause is reported exactly when the Play condition fails and the whole
   * palm is above the wrist; Play takes precedence when both hold.
   */
  lemma PauseIff(lm: seq<Landmark>)
    ensures DetectGesture(lm) == Some(Pause) <==>
      |lm| >= LandmarkCount && !IndexClearlyHighest(lm) && PalmAboveWrist(lm)
  {
    PlayIff(lm);
    if |lm| >= LandmarkCount {
      PalmAboveWristOnTips(lm);
    }
  }

  /** No gesture is reported exactly when neither condition holds (or the hand is incomplete). */
  lemma NoGestureIff(lm: seq<Landmark>)
    ensures DetectGesture(lm) == None <==>
      |lm| < LandmarkCount || (!IndexClearlyHighest(lm) && !PalmAboveWrist(lm))
  {
    PlayIff(lm);
    PauseIff(lm);
  }

  /** A fingertip level with the index tip always rules Play out. */
  lemma TieNeverPlays(lm: seq<Landmark>, k: nat)
    requires |lm| >= LandmarkCount
    requires k in {ThumbTip, MiddleTip, RingTip, PinkyTip} && lm[k].y <= lm[IndexTip].y
    ensures DetectGesture(lm) != Some(Play)
  {
    PlayIff(lm);
  }

  /** Play wins when a frame satisfies both the Play and the Pause condition. */
  lemma PlayBeatsPause(lm: seq<Landmark>)
    requires |lm| >= LandmarkCount && IndexClearlyHighest(lm) && PalmAboveWrist(lm)
    ensures DetectGesture(lm) == Some(Play)
  {
    PlayIff(lm);
  }

  // ---------------------------------------------------------------------
  // Sample hands
  // ---------------------------------------------------------------------

  /** A complete hand whose wrist and fingertips are at the given heights (other points at the wrist's). */
  function HandAt(wristY: int, thumbY: int, indexY: int, middleY: int, ringY: int, pinkyY: int): (lm: seq<Landmark>)
    ensures |lm| == LandmarkCount && lm[Wrist].y == wristY && lm[ThumbTip].y == thumbY
    ensures lm[IndexTip].y == indexY && lm[MiddleTip].y == middleY
    ensures lm[RingTip].y == ringY && lm[PinkyTip].y == pinkyY
  {
    seq(LandmarkCount, i =>
      Landmark(0,
        if i == ThumbTip then thumbY else if i == IndexTip then indexY
        else if i == MiddleTip then middleY else if i == RingTip then ringY
        else if i == PinkyTip then pinkyY else wristY,
        0))
  }

  /** An index tip at 100 with every other tip at 131 or lower in the frame is Play. */
  lemma IndexAt100IsPlay(wristY: int, thumbY: int, middleY: int, ringY: int, pinkyY: int)
    requires thumbY >= 131 && middleY >= 131 && ringY >= 131 && pinkyY >= 131
    ensures DetectGesture(HandAt(wristY, thumbY, 100, middleY, ringY, pinkyY)) == Some(Play)
  {
    ClearImpliesPlay(HandAt(wristY, thumbY, 100, middleY, ringY, pinkyY));
  }

  /** Every tip above wrist - 30 with the index tip not clearly highest is Pause. */
  lemma OpenPalmIsPause(wristY: int, y: int)
    requires y < wristY - PauseMargin
    ensures DetectGesture(HandAt(wristY, y, y, y, y, y)) == Some(Pause)
  {
    PauseIff(HandAt(wristY, y, y, y, y, y));
  }
}
