/**
  The hand loop of `onResults`: every hand MediaPipe reports in a frame is
  classified in order, and each non-null classification goes through
  `processGesture`, all into the one gesture buffer the component keeps.
 */
module Frame {
  import opened Options
  import opened Seqs
  import opened Gestures
  import opened Classifier
  import opened Stabilizer

  /** MediaPipe's landmark lists for one frame, one per detected hand. */
  predicate AllHands(hands: seq<seq<Landmark>>)
  {
    forall i :: 0 <= i < |hands| ==> HasAllLandmarks(hands[i])
  }

  /** `recognizeGesture` for each hand of the frame, in order. */
  function Detections(hands: seq<seq<Landmark>>): (ds: seq<Option<Detection>>)
    requires AllHands(hands)
    ensures |ds| == |hands|
    ensures forall i :: 0 <= i < |hands| ==> ds[i] == ClassifyHandGesture(hands[i]).detection
  {
    seq(|hands|, i requires 0 <= i < |hands| && AllHands(hands) => ClassifyHandGesture(hands[i]).detection)
  }

  /** The gesture names the `if (gesture)` guard lets through, in order:
      `null` classifications contribute nothing. */
  function Names(ds: seq<Option<Detection>>): (gs: seq<Gesture>)
    ensures |gs| <= |ds|
    decreases |ds|
  {
    if |ds| == 0 then
      []
    else
      var earlier := Names(ds[..|ds| - 1]);
      match ds[|ds| - 1]
      case Some(d) => earlier + [d.gesture]
      case None => earlier
  }

  /** The names of a frame's hands. */
  function DetectedGestures(hands: seq<seq<Landmark>>): seq<Gesture>
    requires AllHands(hands)
  {
    Names(Detections(hands))
  }

  lemma NamesSnoc(ds: seq<Option<Detection>>, d: Option<Detection>)
    ensures Names(ds + [d]) == Names(ds) + (if d.Some? then [d.value.gesture] else [])
  {
    assert (ds + [d])[..|ds|] == ds;
  }

  /** The names of two runs of classifications are those of the first run
      followed by those of the second. */
  lemma {:induction false} NamesAppend(a: seq<Option<Detection>>, b: seq<Option<Detection>>)
    ensures Names(a + b) == Names(a) + Names(b)
    decreases |b|
  {
    if |b| == 0 {
      assert a + b == a;
    } else {
      var n := |b| - 1;
      var front := b[..n];
      assert a + b == (a + front) + [b[n]];
      NamesSnoc(a + front, b[n]);
      NamesSnoc(front, b[n]);
      assert front + [b[n]] == b;
      NamesAppend(a, front);
    }
  }

  /** Names are dropped exactly for the `null` classifications: the frame
      contributes nothing if and only if no hand was recognised. */
  lemma {:induction false} NamesEmptyIff(ds: seq<Option<Detection>>)
    ensures Names(ds) == [] <==> forall i :: 0 <= i < |ds| ==> ds[i].None?
    decreases |ds|
  {
    if |ds| > 0 {
      var n := |ds| - 1;
      NamesEmptyIff(ds[..n]);
      assert forall i :: 0 <= i < n ==> ds[..n][i] == ds[i];
    }
  }

  /** Every name comes from a recognised hand, and no hand's name is lost:
      each name is the gesture of some detection, and each detection's gesture
      is among the names. */
  lemma {:induction false} NamesSound(ds: seq<Option<Detection>>, k: nat)
    requires k < |Names(ds)|
    ensures exists j :: 0 <= j < |ds| && ds[j].Some? && ds[j].value.gesture == Names(ds)[k]
    decreases |ds|
  {
    var n := |ds| - 1;
    var front := ds[..n];
    var earlier := Names(front);
    if k < |earlier| {
      NamesSound(front, k);
      var j :| 0 <= j < |front| && front[j].Some? && front[j].value.gesture == earlier[k];
      assert ds[j] == front[j];
    }
  }

  lemma {:induction false} NamesComplete(ds: seq<Option<Detection>>, j: nat)
    requires j < |ds| && ds[j].Some?
    ensures ds[j].value.gesture in Names(ds)
    decreases |ds|
  {
    var n := |ds| - 1;
    if j < n {
      NamesComplete(ds[..n], j);
    }
  }

  /** Each name a frame contributes is a gesture some hand was classified as,
      with that gesture's fixed confidence. */
  lemma DetectedGesturesSound(hands: seq<seq<Landmark>>, k: nat)
    requires AllHands(hands) && k < |DetectedGestures(hands)|
    ensures exists j :: 0 <= j < |hands| &&
              ClassifyHandGesture(hands[j]).detection
                == Some(Detection(DetectedGestures(hands)[k], FixedConfidence(DetectedGestures(hands)[k])))
  {
    var ds := Detections(hands);
    NamesSound(ds, k);
    var j :| 0 <= j < |ds| && ds[j].Some? && ds[j].value.gesture == Names(ds)[k];
    assert ClassifyHandGesture(hands[j]).detection == ds[j];
  }

  /** One iteration of the hand loop: a recognised hand is one more
      `processGesture`, a `null` one changes nothing. */
  lemma HandStep(st: State, ds: seq<Option<Detection>>, i: nat, time: string)
    requires i < |ds|
    ensures ObserveAll(st, Names(ds[..i + 1]), time)
            == match ds[i]
               case Some(d) => ProcessGesture(ObserveAll(st, Names(ds[..i]), time), d.gesture, time)
               case None => ObserveAll(st, Names(ds[..i]), time)
  {
    PrefixSnoc(ds, i);
    NamesSnoc(ds[..i], ds[i]);
    if ds[i].Some? {
      ObserveAllSnoc(st, Names(ds[..i]), ds[i].value.gesture, time);
    } else {
      assert Names(ds[..i]) + [] == Names(ds[..i]);
    }
  }

  /** The hand loop of `onResults`. A frame without hands is the source's
      `else` branch, which only resets the displayed gesture and leaves the
      buffer, the text and the history alone. */
  method OnResults(st: State, hands: seq<seq<Landmark>>, time: string) returns (r: State)
    requires AllHands(hands)
    ensures r == ObserveAll(st, DetectedGestures(hands), time)
    ensures |st.buffer| <= BufferCapacity ==>
              r.buffer == TakeLast(st.buffer + DetectedGestures(hands), BufferCapacity)
    ensures (forall i :: 0 <= i < |hands| ==> ClassifyHandGesture(hands[i]).detection.None?) ==> r == st
    ensures st.text <= r.text
  {
    r := st;
    ghost var ds := Detections(hands);
    // With no hands the loop runs zero times, which is the source's `else`
    // branch as far as this state is concerned.
    for i := 0 to |hands|
      invariant r == ObserveAll(st, Names(ds[..i]), time)
    {
      var detection := ClassifyHandGesture(hands[i]).detection;
      HandStep(st, ds, i, time);
      if detection.Some? {
        r := ProcessGesture(r, detection.value.gesture, time);
      }
    }
    assert ds[..|hands|] == ds;
    NoDetectionsLeaveStateAlone(st, hands, time);
  }

  /** Hands that are all classified `null`, or no hands at all, leave the
      buffer, the text and the history as they were. */
  lemma NoDetectionsLeaveStateAlone(st: State, hands: seq<seq<Landmark>>, time: string)
    requires AllHands(hands)
    ensures (forall i :: 0 <= i < |hands| ==> ClassifyHandGesture(hands[i]).detection.None?) ==>
              ObserveAll(st, DetectedGestures(hands), time) == st
  {
    if forall i :: 0 <= i < |hands| ==> ClassifyHandGesture(hands[i]).detection.None? {
      var ds := Detections(hands);
      assert forall i :: 0 <= i < |ds| ==> ds[i].None?;
      NamesEmptyIff(ds);
      EmptyStream(st, time);
    }
  }

  /** Two frames processed one after the other process their hands' names as
      one stream. */
  lemma TwoFramesShareBuffer(st: State, f1: seq<seq<Landmark>>, f2: seq<seq<Landmark>>, time: string)
    requires AllHands(f1) && AllHands(f2)
    ensures AllHands(f1 + f2)
    ensures ObserveAll(ObserveAll(st, DetectedGestures(f1), time), DetectedGestures(f2), time)
            == ObserveAll(st, DetectedGestures(f1 + f2), time)
  {
    assert AllHands(f1 + f2) by {
      assert forall i :: 0 <= i < |f1 + f2| ==> (f1 + f2)[i] == if i < |f1| then f1[i] else f2[i - |f1|];
    }
    assert Detections(f1 + f2) == Detections(f1) + Detections(f2);
    NamesAppend(Detections(f1), Detections(f2));
    ObserveAllAppend(st, DetectedGestures(f1), DetectedGestures(f2), time);
  }

  /** One frame keeps the translator in a reachable state. */
  lemma OnResultsPreservesReachable(st: State, hands: seq<seq<Landmark>>, time: string)
    requires Reachable(st) && AllHands(hands)
    ensures Reachable(ObserveAll(st, DetectedGestures(hands), time))
  {
    ObserveAllPreservesReachable(st, DetectedGestures(hands), time);
  }

  /** Two hands showing the same gesture fill the shared buffer twice as fast:
      from a cleared buffer, the second frame already commits the translation. */
  lemma TwoHandsCommitOnSecondFrame(st: State, h: seq<Landmark>, g: Gesture, time: string)
    requires Reachable(st) && st.buffer == [] && HasAllLandmarks(h)
    requires ClassifyHandGesture(h).detection == Some(Detection(g, FixedConfidence(g)))
    ensures AllHands([h, h])
    ensures var first := ObserveAll(st, DetectedGestures([h, h]), time);
            var second := ObserveAll(first, DetectedGestures([h, h]), time);
            first.text == st.text && second.text == st.text + SignMapping(g) + " "
  {
    SameGestureTwice(h, g);
    HeldInTwoBatches(st, g, time);
  }

  lemma SameGestureTwice(h: seq<Landmark>, g: Gesture)
    requires HasAllLandmarks(h)
    requires ClassifyHandGesture(h).detection == Some(Detection(g, FixedConfidence(g)))
    ensures AllHands([h, h]) && DetectedGestures([h, h]) == Repeat(g, 2)
  {
    var d := Some(Detection(g, FixedConfidence(g)));
    assert AllHands([h, h]);
    var ds := Detections([h, h]);
    assert ds[0] == d && ds[1] == d;
    assert ds == [d] + [d];
    NamesSnoc([], d);
    NamesSnoc([d], d);
    assert Repeat(g, 2) == [g] + [g];
  }

  /** `translateGesture` as the registered callback sees it: `onResults` is
      handed to MediaPipe once, when the component mounts, so the
      `translatedText` it reads is the mount-time value, the empty string. The
      duplicate check then compares against nothing and the new text is just
      the latest translation; the history, updated through a function of the
      previous value, is still current. */
  function StaleTranslateGesture(st: State, g: Gesture, time: string): (r: State)
    ensures r.text == SignMapping(g) + " "
    ensures r.buffer == st.buffer
    ensures r.history == TakeLast(st.history + [Entry(g, SignMapping(g), time)], HistoryCapacity)
  {
    var snapshot := "";
    var t := SignMapping(g);
    if |t| > 0 && t != TakeLast(snapshot, |t|) then
      st.(text := snapshot + t + " ",
          history := TakeLast(st.history + [Entry(g, t, time)], HistoryCapacity))
    else
      st
  }

  /** As registered, every commit after the first throws the earlier text away:
      whenever there is text, the stale callback's result differs from the
      current-text translation, which keeps it as a prefix. */
  lemma StaleTranslateDropsText(st: State, g: Gesture, time: string)
    requires Reachable(st) && st.text != ""
    ensures StaleTranslateGesture(st, g, time).text != TranslateGesture(st, g, time).text
    ensures st.text <= TranslateGesture(st, g, time).text
  {
    TranslateAlwaysCommits(st, g, time);
    assert |StaleTranslateGesture(st, g, time).text| < |TranslateGesture(st, g, time).text|;
  }

  /** The concrete case: after "A " is on screen, a committed peace sign shows
      "V " instead of "A V ". */
  lemma StaleTranslateExample(time: string)
    ensures var st := State([], "A ", []);
            && StaleTranslateGesture(st, Peace, time).text == "V "
            && TranslateGesture(st, Peace, time).text == "A V "
  {
    var st := State([], "A ", []);
    assert st.text == Render([Fist]) by {
      assert [Fist][..0] == [];
    }
    TranslateAlwaysCommits(st, Peace, time);
  }

}
