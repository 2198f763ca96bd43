/**
 * Gesture classification: five finger-extension flags from strict coordinate
 * comparisons, then a first-match-wins pattern chain that yields a mode
 * (0 Dots, 1 Lines, 2 ASCII, 3 Particles) or no change.
 */
module Gesture {
  import opened Imaging

  /** A normalised hand keypoint; the detector delivers 21 per hand. */
  datatype Landmark = Landmark(x: real, y: real)

  const ThumbIp := 3
  const ThumbTip := 4
  const IndexPip := 6
  const IndexTip := 8
  const MiddlePip := 10
  const MiddleTip := 12
  const RingPip := 14
  const RingTip := 16
  const PinkyPip := 18
  const PinkyTip := 20

  /** Python truthiness of the landmark list: absent and empty both mean "no hand". */
  predicate HasHand(landmarks: Option<seq<Landmark>>)
  {
    landmarks.Some? && |landmarks.value| > 0
  }

  /** What the classifier needs in order not to fail on an index: no hand,
      or a list reaching the pinky tip. */
  predicate Indexable(landmarks: Option<seq<Landmark>>)
  {
    !HasHand(landmarks) || |landmarks.value| > PinkyTip
  }

  datatype Finger = Thumb | Index | Middle | Ring | Pinky

  /** The geometric meaning of "finger up": the thumb tip lies right of its
      interphalangeal joint; any other tip lies strictly above its PIP joint. */
  predicate Extended(lms: seq<Landmark>, f: Finger)
    requires |lms| > PinkyTip
  {
    match f
    case Thumb => lms[ThumbTip].x > lms[ThumbIp].x
    case Index => lms[IndexTip].y < lms[IndexPip].y
    case Middle => lms[MiddleTip].y < lms[MiddlePip].y
    case Ring => lms[RingTip].y < lms[RingPip].y
    case Pinky => lms[PinkyTip].y < lms[PinkyPip].y
  }

  function Flag(b: bool): int { if b then 1 else 0 }

  /** The `fingers_up` list, thumb first. */
  function FingersUp(lms: seq<Landmark>): seq<int>
    requires |lms| > PinkyTip
  {
    [Flag(Extended(lms, Thumb)), Flag(Extended(lms, Index)), Flag(Extended(lms, Middle)),
     Flag(Extended(lms, Ring)), Flag(Extended(lms, Pinky))]
  }

  /** The prioritised pattern chain over the flags. */
  function GestureOf(flags: seq<int>): Option<int>
  {
    if flags == [0, 1, 0, 0, 0] then Some(1)
    else if flags == [0, 1, 1, 0, 0] then Some(0)
    else if flags == [1, 0, 0, 0, 1] then Some(2)
    else if Sum(flags) >= 4 then Some(3)
    else None
  }

  /** `detect_hand_gesture` as a value: no hand gives no change; otherwise a mode in 0..3 or none. */
  function Classify(landmarks: Option<seq<Landmark>>): (g: Option<int>)
    requires Indexable(landmarks)
    ensures !HasHand(landmarks) ==> g == None
    ensures g.Some? ==> 0 <= g.value <= 3
  {
    if !HasHand(landmarks) then None else GestureOf(FingersUp(landmarks.value))
  }

  lemma SumOfFive(f: seq<int>)
    requires |f| == 5
    ensures Sum(f) == f[0] + f[1] + f[2] + f[3] + f[4]
  {
    assert Sum(f[4..]) == f[4] + Sum(f[5..]);
    assert Sum(f[3..]) == f[3] + Sum(f[4..]);
    assert Sum(f[2..]) == f[2] + Sum(f[3..]);
    assert Sum(f[1..]) == f[1] + Sum(f[2..]);
  }

  /** The flags as booleans: each is 1 exactly when its finger is extended. */
  lemma FlagsOfFingers(lms: seq<Landmark>)
    requires |lms| > PinkyTip
    ensures var f := FingersUp(lms);
      |f| == 5 &&
      (f[0] == 1 <==> Extended(lms, Thumb)) && (f[1] == 1 <==> Extended(lms, Index)) &&
      (f[2] == 1 <==> Extended(lms, Middle)) && (f[3] == 1 <==> Extended(lms, Ring)) &&
      (f[4] == 1 <==> Extended(lms, Pinky)) &&
      forall j :: 0 <= j < 5 ==> f[j] == 0 || f[j] == 1
  {
  }

  /** Exactly the fingers in `up` are extended. */
  predicate ExactlyUp(lms: seq<Landmark>, up: set<Finger>)
    requires |lms| > PinkyTip
  {
    forall f :: Extended(lms, f) <==> f in up
  }

  lemma ExactlyUpIsPattern(lms: seq<Landmark>, up: set<Finger>, pattern: seq<int>)
    requires |lms| > PinkyTip && |pattern| == 5
    requires forall j :: 0 <= j < 5 ==> pattern[j] == 0 || pattern[j] == 1
    requires (pattern[0] == 1 <==> Thumb in up) && (pattern[1] == 1 <==> Index in up) &&
             (pattern[2] == 1 <==> Middle in up) && (pattern[3] == 1 <==> Ring in up) &&
             (pattern[4] == 1 <==> Pinky in up)
    ensures ExactlyUp(lms, up) <==> FingersUp(lms) == pattern
  {
    FlagsOfFingers(lms);
    var f := FingersUp(lms);
    if f == pattern {
      forall g ensures Extended(lms, g) <==> g in up {
        match g
        case Thumb => assert f[0] == pattern[0];
        case Index => assert f[1] == pattern[1];
        case Middle => assert f[2] == pattern[2];
        case Ring => assert f[3] == pattern[3];
        case Pinky => assert f[4] == pattern[4];
      }
    }
    if ExactlyUp(lms, up) {
      assert Extended(lms, Thumb) <==> Thumb in up;
      assert Extended(lms, Index) <==> Index in up;
      assert Extended(lms, Middle) <==> Middle in up;
      assert Extended(lms, Ring) <==> Ring in up;
      assert Extended(lms, Pinky) <==> Pinky in up;
      assert f == pattern;
    }
  }

  /** At most one of the five fingers is folded. */
  predicate AtMostOneFolded(lms: seq<Landmark>)
    requires |lms| > PinkyTip
  {
    forall f, f' :: !Extended(lms, f) && !Extended(lms, f') ==> f == f'
  }

  lemma OpenPalmIsSum(lms: seq<Landmark>)
    requires |lms| > PinkyTip
    ensures AtMostOneFolded(lms) <==> Sum(FingersUp(lms)) >= 4
  {
    var f := FingersUp(lms);
    SumOfFive(f);
    var t, i, m, r, p := Extended(lms, Thumb), Extended(lms, Index), Extended(lms, Middle),
                         Extended(lms, Ring), Extended(lms, Pinky);
    assert f == [Flag(t), Flag(i), Flag(m), Flag(r), Flag(p)];
    if Sum(f) >= 4 {
      forall g, g' | !Extended(lms, g) && !Extended(lms, g') ensures g == g' {
        assert g.Thumb? || g.Index? || g.Middle? || g.Ring? || g.Pinky?;
      }
    } else {
      if !t && !i { assert !Extended(lms, Thumb) && !Extended(lms, Index); }
      else if !t && !m { assert !Extended(lms, Thumb) && !Extended(lms, Middle); }
      else if !t && !r { assert !Extended(lms, Thumb) && !Extended(lms, Ring); }
      else if !t && !p { assert !Extended(lms, Thumb) && !Extended(lms, Pinky); }
      else if !i && !m { assert !Extended(lms, Index) && !Extended(lms, Middle); }
      else if !i && !r { assert !Extended(lms, Index) && !Extended(lms, Ring); }
      else if !i && !p { assert !Extended(lms, Index) && !Extended(lms, Pinky); }
      else if !m && !r { assert !Extended(lms, Middle) && !Extended(lms, Ring); }
      else if !m && !p { assert !Extended(lms, Middle) && !Extended(lms, Pinky); }
      else { assert !Extended(lms, Ring) && !Extended(lms, Pinky); }
    }
  }

  /** The gesture table stated over the hand's geometry, in both directions:
      index alone is Lines, index and middle is Dots, thumb and pinky is ASCII,
      an open palm with at most one finger folded is Particles, and everything
      else leaves the mode unchanged. */
  lemma ClassifyByFingers(lms: seq<Landmark>)
    requires |lms| > PinkyTip
    ensures Classify(Some(lms)) == Some(1) <==> ExactlyUp(lms, {Index})
    ensures Classify(Some(lms)) == Some(0) <==> ExactlyUp(lms, {Index, Middle})
    ensures Classify(Some(lms)) == Some(2) <==> ExactlyUp(lms, {Thumb, Pinky})
    ensures Classify(Some(lms)) == Some(3) <==> AtMostOneFolded(lms)
    ensures Classify(Some(lms)) == None <==>
      !ExactlyUp(lms, {Index}) && !ExactlyUp(lms, {Index, Middle}) &&
      !ExactlyUp(lms, {Thumb, Pinky}) && !AtMostOneFolded(lms)
  {
    ExactlyUpIsPattern(lms, {Index}, [0, 1, 0, 0, 0]);
    ExactlyUpIsPattern(lms, {Index, Middle}, [0, 1, 1, 0, 0]);
    ExactlyUpIsPattern(lms, {Thumb, Pinky}, [1, 0, 0, 0, 1]);
    OpenPalmIsSum(lms);
    SumOfFive([0, 1, 0, 0, 0]);
    SumOfFive([0, 1, 1, 0, 0]);
    SumOfFive([1, 0, 0, 0, 1]);
  }

  /** The source's procedure: build the flag list (thumb, then the four other
      fingers in a loop over tip/PIP pairs) and run the pattern chain. */
  method DetectHandGesture(landmarks: Option<seq<Landmark>>) returns (gesture: Option<int>)
    requires Indexable(landmarks)
    ensures gesture == Classify(landmarks)
  {
    if !HasHand(landmarks) {
      return None;
    }
    var lms := landmarks.value;
    var fingersUp: seq<int> := [];
    if lms[ThumbTip].x > lms[ThumbIp].x {
      fingersUp := fingersUp + [1];
    } else {
      fingersUp := fingersUp + [0];
    }
    var fingerTips := [lms[IndexTip], lms[MiddleTip], lms[RingTip], lms[PinkyTip]];
    var fingerPips := [lms[IndexPip], lms[MiddlePip], lms[RingPip], lms[PinkyPip]];
    var j := 0;
    while j < 4
      invariant 0 <= j <= 4
      invariant |fingersUp| == j + 1
      invariant fingersUp == FingersUp(lms)[..j + 1]
    {
      if fingerTips[j].y < fingerPips[j].y {
        fingersUp := fingersUp + [1];
      } else {
        fingersUp := fingersUp + [0];
      }
      j := j + 1;
    }
    assert fingersUp == FingersUp(lms);
    if fingersUp == [0, 1, 0, 0, 0] {
      gesture := Some(1);
    } else if fingersUp == [0, 1, 1, 0, 0] {
      gesture := Some(0);
    } else if fingersUp == [1, 0, 0, 0, 1] {
      gesture := Some(2);
    } else if Sum(fingersUp) >= 4 {
      gesture := Some(3);
    } else {
      gesture := None;
    }
  }

  /** The mode latch of the frame loop: a recognised gesture overwrites the
      mode, no gesture keeps it. */
  function Latch(mode: int, landmarks: Option<seq<Landmark>>): (m: int)
    requires Indexable(landmarks)
    ensures Classify(landmarks) == None ==> m == mode
    ensures Classify(landmarks) != None ==> m == Classify(landmarks).value
    ensures 0 <= mode <= 3 ==> 0 <= m <= 3
  {
    match Classify(landmarks)
    case Some(g) => g
    case None => mode
  }

  /** The mode after a run of frames, starting from `mode`. */
  function ModeAfter(mode: int, hands: seq<Option<seq<Landmark>>>): int
    requires forall i :: 0 <= i < |hands| ==> Indexable(hands[i])
  {
    if hands == [] then mode
    else Latch(ModeAfter(mode, hands[..|hands| - 1]), hands[|hands| - 1])
  }

  /** Starting from a valid mode, no run of frames ever leaves 0..3, so the
      dispatch never reaches its pass-through branch. */
  lemma {:induction false} ModeStaysValid(mode: int, hands: seq<Option<seq<Landmark>>>)
    requires 0 <= mode <= 3
    requires forall i :: 0 <= i < |hands| ==> Indexable(hands[i])
    ensures 0 <= ModeAfter(mode, hands) <= 3
  {
    if hands != [] {
      ModeStaysValid(mode, hands[..|hands| - 1]);
    }
  }

  /** A run of frames none of which shows a recognised gesture leaves the mode as it was. */
  lemma {:induction false} UnrecognisedFramesKeepMode(mode: int, hands: seq<Option<seq<Landmark>>>)
    requires forall i :: 0 <= i < |hands| ==> Indexable(hands[i])
    requires forall i :: 0 <= i < |hands| ==> Classify(hands[i]) == None
    ensures ModeAfter(mode, hands) == mode
  {
    if hands != [] {
      UnrecognisedFramesKeepMode(mode, hands[..|hands| - 1]);
    }
  }
}
