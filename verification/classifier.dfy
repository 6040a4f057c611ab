/**
  The per-frame geometric classifier (`classifyHandGesture`): from the 21 hand
  landmarks of one detected hand it derives per-finger flags, counts them, and
  applies seven rules in a fixed order; the first rule that holds names the
  gesture, and when none holds the result is `null`.
 */
module Classifier {
  import opened Options
  import opened Seqs
  import opened Gestures

  /** One landmark in normalised image coordinates; y grows downwards. */
  datatype Landmark = Landmark(x: real, y: real, z: real)

  /** MediaPipe landmark numbering. The wrist (0) and thumb CMC (1) are named by
      the source but never read by any rule. */
  const Wrist: nat := 0
  const ThumbCmc: nat := 1
  const ThumbMcp: nat := 2
  const ThumbIp: nat := 3
  const ThumbTip: nat := 4
  const IndexTip: nat := 8

  /** The landmark indices read are 0..20; the hand-tracking model supplies 21. */
  predicate HasAllLandmarks(lm: seq<Landmark>)
  {
    |lm| >= 21
  }

  /** The four fingers that are tested for extension and curl. */
  datatype Finger = Index | Middle | Ring | Pinky

  function Tip(f: Finger): (i: nat)
    ensures i <= 20
  {
    match f
    case Index => 8
    case Middle => 12
    case Ring => 16
    case Pinky => 20
  }

  function Pip(f: Finger): (i: nat)
    ensures i <= 20
  {
    match f
    case Index => 6
    case Middle => 10
    case Ring => 14
    case Pinky => 18
  }

  function Mcp(f: Finger): (i: nat)
    ensures i <= 20
  {
    match f
    case Index => 5
    case Middle => 9
    case Ring => 13
    case Pinky => 17
  }

  function Abs(r: real): real
  {
    if r < 0.0 then -r else r
  }

  /** `isFingerExtended`: the tip is above the PIP joint and the PIP joint above the MCP joint. */
  function IsFingerExtended(lm: seq<Landmark>, f: Finger): (b: bool)
    requires HasAllLandmarks(lm)
    ensures b ==> lm[Tip(f)].y < lm[Mcp(f)].y
    ensures b ==> lm[Tip(f)].y < lm[Pip(f)].y
  {
    lm[Tip(f)].y < lm[Pip(f)].y && lm[Pip(f)].y < lm[Mcp(f)].y
  }

  /** `isFingerCurled`: the tip is level with or below the PIP joint, or within
      0.02 of it. Curl therefore depends only on how far the tip rises above the
      PIP joint; the MCP joint plays no part. */
  function IsFingerCurled(lm: seq<Landmark>, f: Finger): (b: bool)
    requires HasAllLandmarks(lm)
    ensures b <==> lm[Pip(f)].y - lm[Tip(f)].y < 0.02
  {
    lm[Tip(f)].y >= lm[Pip(f)].y || Abs(lm[Tip(f)].y - lm[Pip(f)].y) < 0.02
  }

  /** `isThumbExtended`: tip, IP and MCP progress monotonically to the right, or
      to the left, or upwards. */
  function IsThumbExtended(lm: seq<Landmark>): (b: bool)
    requires HasAllLandmarks(lm)
    ensures b ==> lm[ThumbTip].x != lm[ThumbMcp].x || lm[ThumbTip].y < lm[ThumbMcp].y
    ensures lm[ThumbTip].x == lm[ThumbIp].x == lm[ThumbMcp].x ==> (b <==> lm[ThumbTip].y < lm[ThumbIp].y < lm[ThumbMcp].y)
  {
    var tip := lm[ThumbTip];
    var ip := lm[ThumbIp];
    var mcp := lm[ThumbMcp];
    || (tip.x > ip.x && ip.x > mcp.x)
    || (tip.x < ip.x && ip.x < mcp.x)
    || (tip.y < ip.y && ip.y < mcp.y)
  }

  /** `distance(thumbTip, indexTip) < 0.05` in the x-y plane, squared on both
      sides so that no square root is needed. */
  function ThumbTouchesIndex(lm: seq<Landmark>): (b: bool)
    requires HasAllLandmarks(lm)
    ensures b ==> Abs(lm[ThumbTip].x - lm[IndexTip].x) < 0.05 && Abs(lm[ThumbTip].y - lm[IndexTip].y) < 0.05
  {
    var dx := lm[ThumbTip].x - lm[IndexTip].x;
    var dy := lm[ThumbTip].y - lm[IndexTip].y;
    dx * dx + dy * dy < 0.0025
  }

  /** `Math.sqrt(dx * dx + dy * dy) < 0.05` for the thumb and index tips is the
      squared test: any non-negative `d` whose square is the squared distance is
      below 0.05 exactly when the hand is reported as touching. */
  lemma TouchIsDistanceBelowThreshold(lm: seq<Landmark>, d: real)
    requires HasAllLandmarks(lm)
    requires d >= 0.0
    requires d * d == (lm[ThumbTip].x - lm[IndexTip].x) * (lm[ThumbTip].x - lm[IndexTip].x)
                      + (lm[ThumbTip].y - lm[IndexTip].y) * (lm[ThumbTip].y - lm[IndexTip].y)
    ensures ThumbTouchesIndex(lm) <==> d < 0.05
  {
    if d < 0.05 {
      assert d * d <= d * 0.05;
      assert d * 0.05 < 0.05 * 0.05;
    } else {
      assert d * d >= d * 0.05;
      assert d * 0.05 >= 0.05 * 0.05;
    }
  }

  datatype FingerFlags = FingerFlags(extended: bool, curled: bool)

  /** The finger flags and counts the source publishes as debug information. */
  datatype HandReport = HandReport(
    thumbExtended: bool,
    index: FingerFlags,
    middle: FingerFlags,
    ring: FingerFlags,
    pinky: FingerFlags,
    extendedCount: nat,
    curledCount: nat)

  function Flags(lm: seq<Landmark>, f: Finger): FingerFlags
    requires HasAllLandmarks(lm)
  {
    FingerFlags(IsFingerExtended(lm, f), IsFingerCurled(lm, f))
  }

  function Bit(b: bool): nat
  {
    if b then 1 else 0
  }

  /** `[a, b, c, d].filter(Boolean).length`. */
  lemma CountOfFour(a: bool, b: bool, c: bool, d: bool)
    ensures Count([a, b, c, d], true) == Bit(a) + Bit(b) + Bit(c) + Bit(d)
  {
    CountOfOne(a);
    CountOfOne(b);
    CountOfOne(c);
    CountOfOne(d);
    assert [a, b, c, d] == [a, b] + [c, d];
    CountConcat([a, b], [c, d], true);
    CountConcat([a], [b], true);
    CountConcat([c], [d], true);
  }

  lemma CountOfOne(a: bool)
    ensures Count([a], true) == Bit(a)
  {
    assert [a][..0] == [];
  }

  /** The finger flags and their counts for one hand. */
  function Report(lm: seq<Landmark>): (r: HandReport)
    requires HasAllLandmarks(lm)
    ensures r.index.extended == IsFingerExtended(lm, Index) && r.index.curled == IsFingerCurled(lm, Index)
    ensures r.middle.extended == IsFingerExtended(lm, Middle) && r.middle.curled == IsFingerCurled(lm, Middle)
    ensures r.ring.extended == IsFingerExtended(lm, Ring) && r.ring.curled == IsFingerCurled(lm, Ring)
    ensures r.pinky.extended == IsFingerExtended(lm, Pinky) && r.pinky.curled == IsFingerCurled(lm, Pinky)
    ensures r.thumbExtended == IsThumbExtended(lm)
    ensures r.extendedCount == Bit(r.index.extended) + Bit(r.middle.extended) + Bit(r.ring.extended) + Bit(r.pinky.extended)
    ensures r.curledCount == Bit(r.index.curled) + Bit(r.middle.curled) + Bit(r.ring.curled) + Bit(r.pinky.curled)
    ensures r.extendedCount <= 4 && r.curledCount <= 4
    ensures r.extendedCount == 0 <==> !r.index.extended && !r.middle.extended && !r.ring.extended && !r.pinky.extended
    ensures r.extendedCount == 4 <==> r.index.extended && r.middle.extended && r.ring.extended && r.pinky.extended
    ensures r.curledCount == 4 <==> r.index.curled && r.middle.curled && r.ring.curled && r.pinky.curled
  {
    var i := Flags(lm, Index);
    var m := Flags(lm, Middle);
    var g := Flags(lm, Ring);
    var p := Flags(lm, Pinky);
    CountOfFour(i.extended, m.extended, g.extended, p.extended);
    CountOfFour(i.curled, m.curled, g.curled, p.curled);
    HandReport(
      IsThumbExtended(lm), i, m, g, p,
      Count([i.extended, m.extended, g.extended, p.extended], true),
      Count([i.curled, m.curled, g.curled, p.curled], true))
  }

  /** The seven rules of `classifyHandGesture`, tried in source order. */
  function Rules(r: HandReport, touching: bool): (res: Option<Detection>)
    ensures res.Some? ==> res.value.confidence == FixedConfidence(res.value.gesture)
    ensures res.Some? ==> Fires(res.value.gesture, r, touching)
    ensures Fires(ThumbsUp, r, touching) ==> res == Some(Detection(ThumbsUp, 0.9))
    ensures r.extendedCount >= 4 ==> res.Some?
  {
    if r.thumbExtended && r.curledCount >= 3 && r.extendedCount <= 1 then
      Some(Detection(ThumbsUp, 0.9))
    else if r.curledCount >= 4 && r.extendedCount == 0 then
      Some(Detection(Fist, 0.9))
    else if r.index.extended && r.middle.extended && r.ring.curled && r.pinky.curled && r.extendedCount == 2 then
      Some(Detection(Peace, 0.85))
    else if r.index.extended && r.middle.curled && r.ring.curled && r.pinky.curled && r.extendedCount == 1 then
      Some(Detection(Pointing, 0.8))
    else if r.extendedCount >= 4 then
      Some(Detection(OpenPalm, 0.85))
    else if r.thumbExtended && r.index.extended && r.middle.curled && r.ring.curled && r.pinky.curled then
      Some(Detection(LShape, 0.8))
    else if touching && r.middle.extended && r.ring.extended && r.pinky.extended then
      Some(Detection(OkSign, 0.8))
    else
      None
  }

  /** The classifier's output: the detection (`None` for `null`) together with
      the finger report the source hands to its debug panel. */
  datatype Classification = Classification(detection: Option<Detection>, report: HandReport)

  function ClassifyHandGesture(lm: seq<Landmark>): (c: Classification)
    requires HasAllLandmarks(lm)
    ensures c.report == Report(lm)
    ensures c.detection.Some? ==> c.detection.value.confidence == FixedConfidence(c.detection.value.gesture)
    ensures c.report.extendedCount == 4 ==> c.detection == Some(Detection(OpenPalm, 0.85))
    ensures c.detection.Some? && c.detection.value.gesture == ThumbsUp ==>
              c.report.thumbExtended && c.report.extendedCount <= 1
    ensures c.detection.Some? && c.detection.value.gesture == Fist ==>
              !c.report.thumbExtended && c.report.extendedCount == 0 && c.report.curledCount == 4
    ensures c.detection.Some? && c.detection.value.gesture == Pointing ==>
              !c.report.thumbExtended && c.report.extendedCount == 1
    ensures c.detection.Some? && c.detection.value.gesture == LShape ==> c.report.extendedCount >= 2
    ensures c.detection.Some? && c.detection.value.gesture == OkSign ==>
              !c.report.index.extended && c.report.extendedCount == 3
  {
    var r := Report(lm);
    Classification(Rules(r, ThumbTouchesIndex(lm)), r)
  }

  /** The rule table, each rule stated on its own, without the earlier rules'
      negations. */
  predicate Fires(g: Gesture, r: HandReport, touching: bool)
  {
    match g
    case ThumbsUp => r.thumbExtended && r.curledCount >= 3 && r.extendedCount <= 1
    case Fist => r.curledCount >= 4 && r.extendedCount == 0
    case Peace => r.index.extended && r.middle.extended && r.ring.curled && r.pinky.curled && r.extendedCount == 2
    case Pointing => r.index.extended && r.middle.curled && r.ring.curled && r.pinky.curled && r.extendedCount == 1
    case OpenPalm => r.extendedCount >= 4
    case LShape => r.thumbExtended && r.index.extended && r.middle.curled && r.ring.curled && r.pinky.curled
    case OkSign => touching && r.middle.extended && r.ring.extended && r.pinky.extended
  }

  /** Position of each rule in the evaluation order. */
  function Priority(g: Gesture): nat
  {
    match g
    case ThumbsUp => 1
    case Fist => 2
    case Peace => 3
    case Pointing => 4
    case OpenPalm => 5
    case LShape => 6
    case OkSign => 7
  }

  /** First match wins: the classifier reports `g` (with its fixed confidence)
      exactly when rule `g` holds and no earlier rule does. */
  lemma ClassifyFirstMatch(lm: seq<Landmark>, g: Gesture)
    requires HasAllLandmarks(lm)
    ensures var c := ClassifyHandGesture(lm);
            c.detection == Some(Detection(g, FixedConfidence(g))) <==>
              && Fires(g, c.report, ThumbTouchesIndex(lm))
              && forall h :: Priority(h) < Priority(g) ==> !Fires(h, c.report, ThumbTouchesIndex(lm))
  {
    var c := ClassifyHandGesture(lm);
    var t := ThumbTouchesIndex(lm);
    assert Priority(ThumbsUp) == 1 && Priority(Fist) == 2 && Priority(Peace) == 3;
    assert Priority(Pointing) == 4 && Priority(OpenPalm) == 5 && Priority(LShape) == 6;
  }

  /** The classifier returns `null` exactly when no rule holds. */
  lemma ClassifyNoMatch(lm: seq<Landmark>)
    requires HasAllLandmarks(lm)
    ensures var c := ClassifyHandGesture(lm);
            c.detection == None <==> forall g :: !Fires(g, c.report, ThumbTouchesIndex(lm))
  {
    var c := ClassifyHandGesture(lm);
    var t := ThumbTouchesIndex(lm);
    if c.detection.Some? {
      assert Fires(c.detection.value.gesture, c.report, t);
    }
  }

  /** Extension and curl overlap exactly for an upward finger whose tip is less
      than 0.02 above its PIP joint. */
  lemma ExtendedAndCurled(lm: seq<Landmark>, f: Finger)
    requires HasAllLandmarks(lm)
    ensures IsFingerExtended(lm, f) && IsFingerCurled(lm, f) <==>
              lm[Tip(f)].y < lm[Pip(f)].y < lm[Mcp(f)].y && lm[Pip(f)].y - lm[Tip(f)].y < 0.02
  {
  }

  /** An L shape is only reported when one of the middle, ring and pinky fingers
      is both extended and curled: otherwise thumbs up or peace would have fired. */
  lemma LShapeNeedsAmbiguousFinger(lm: seq<Landmark>)
    requires HasAllLandmarks(lm)
    requires ClassifyHandGesture(lm).detection == Some(Detection(LShape, 0.8))
    ensures || (IsFingerExtended(lm, Middle) && IsFingerCurled(lm, Middle))
            || (IsFingerExtended(lm, Ring) && IsFingerCurled(lm, Ring))
            || (IsFingerExtended(lm, Pinky) && IsFingerCurled(lm, Pinky))
  {
    var r := Report(lm);
    CountOfFour(r.index.extended, r.middle.extended, r.ring.extended, r.pinky.extended);
  }

  /** The pose the L-shape rule is written for, thumb and index finger out and
      the other three fingertips level with or below their PIP joints, is
      reported as thumbs up. */
  lemma LShapePoseIsThumbsUp(lm: seq<Landmark>)
    requires HasAllLandmarks(lm)
    requires IsThumbExtended(lm) && IsFingerExtended(lm, Index)
    requires forall f :: f != Index ==> lm[Tip(f)].y >= lm[Pip(f)].y
    ensures ClassifyHandGesture(lm).detection == Some(Detection(ThumbsUp, 0.9))
  {
    assert lm[Tip(Middle)].y >= lm[Pip(Middle)].y;
    assert lm[Tip(Ring)].y >= lm[Pip(Ring)].y;
    assert lm[Tip(Pinky)].y >= lm[Pip(Pinky)].y;
  }

  /** With the thumb out and every fingertip level with or below its PIP joint,
      the pose is a thumbs up, never a fist. */
  lemma CurledHandWithThumbIsThumbsUp(lm: seq<Landmark>)
    requires HasAllLandmarks(lm)
    requires IsThumbExtended(lm)
    requires forall f :: lm[Tip(f)].y >= lm[Pip(f)].y
    ensures ClassifyHandGesture(lm).detection == Some(Detection(ThumbsUp, 0.9))
  {
    assert IsFingerCurled(lm, Index) && IsFingerCurled(lm, Middle);
    assert IsFingerCurled(lm, Ring) && IsFingerCurled(lm, Pinky);
  }

  /** The x coordinates the classifier reads: thumb MCP, IP and tip, and the index tip. */
  predicate ReadsX(i: nat)
  {
    i == ThumbMcp || i == ThumbIp || i == ThumbTip || i == IndexTip
  }

  /** The y coordinates the classifier reads: thumb MCP, IP and tip, and the tip,
      PIP and MCP of every finger. */
  predicate ReadsY(i: nat)
  {
    || i == ThumbMcp || i == ThumbIp || i == ThumbTip
    || exists f :: i == Tip(f) || i == Pip(f) || i == Mcp(f)
  }

  /** Two hands agree on every coordinate the classifier reads. */
  predicate SameReadings(a: seq<Landmark>, b: seq<Landmark>)
    requires HasAllLandmarks(a) && HasAllLandmarks(b)
  {
    && (forall i: nat :: i <= 20 && ReadsX(i) ==> a[i].x == b[i].x)
    && (forall i: nat :: i <= 20 && ReadsY(i) ==> a[i].y == b[i].y)
  }

  /** The classification, finger report included, is a function of the read
      coordinates alone. */
  lemma ClassifyDependsOnlyOnReadings(a: seq<Landmark>, b: seq<Landmark>)
    requires HasAllLandmarks(a) && HasAllLandmarks(b)
    requires SameReadings(a, b)
    ensures ClassifyHandGesture(a) == ClassifyHandGesture(b)
  {
    forall f: Finger
      ensures a[Tip(f)].y == b[Tip(f)].y && a[Pip(f)].y == b[Pip(f)].y && a[Mcp(f)].y == b[Mcp(f)].y
    {
      assert ReadsY(Tip(f)) && ReadsY(Pip(f)) && ReadsY(Mcp(f));
    }
    assert ReadsX(ThumbMcp) && ReadsX(ThumbIp) && ReadsX(ThumbTip) && ReadsX(IndexTip);
    assert ReadsY(ThumbMcp) && ReadsY(ThumbIp) && ReadsY(ThumbTip);
    assert Flags(a, Index) == Flags(b, Index) && Flags(a, Middle) == Flags(b, Middle);
    assert Flags(a, Ring) == Flags(b, Ring) && Flags(a, Pinky) == Flags(b, Pinky);
    assert IsThumbExtended(a) == IsThumbExtended(b);
    assert ThumbTouchesIndex(a) == ThumbTouchesIndex(b);
  }

  /** Landmarks the classifier never reads: the wrist, the thumb CMC and the DIP
      joints of the four fingers. */
  predicate Unread(i: nat)
  {
    i == Wrist || i == ThumbCmc || i == 7 || i == 11 || i == 15 || i == 19
  }

  /** Moving the unread landmarks anywhere, and changing any depth coordinate,
      leaves the classification unchanged. */
  lemma ClassifyIgnoresDepthAndUnreadLandmarks(a: seq<Landmark>, b: seq<Landmark>)
    requires HasAllLandmarks(a) && HasAllLandmarks(b)
    requires forall i: nat :: i <= 20 && !Unread(i) ==> a[i].x == b[i].x && a[i].y == b[i].y
    ensures ClassifyHandGesture(a) == ClassifyHandGesture(b)
  {
    forall i: nat | i <= 20 && ReadsX(i)
      ensures a[i].x == b[i].x
    {
      assert !Unread(i);
    }
    forall i: nat | i <= 20 && ReadsY(i)
      ensures a[i].y == b[i].y
    {
      assert !Unread(i);
    }
    ClassifyDependsOnlyOnReadings(a, b);
  }

  /** The hand reflected left to right, as the mirrored camera view shows the
      other hand: x becomes 1 - x in normalised coordinates. */
  function Mirror(lm: seq<Landmark>): (m: seq<Landmark>)
    ensures |m| == |lm|
    ensures forall i :: 0 <= i < |lm| ==> m[i] == Landmark(1.0 - lm[i].x, lm[i].y, lm[i].z)
  {
    seq(|lm|, i requires 0 <= i < |lm| => Landmark(1.0 - lm[i].x, lm[i].y, lm[i].z))
  }

  /** The thumb test accepts a thumb pointing right, left or up, so a left hand
      and a right hand showing the same pose get the same thumb flag. */
  lemma ThumbTestIgnoresHandedness(lm: seq<Landmark>)
    requires HasAllLandmarks(lm)
    ensures HasAllLandmarks(Mirror(lm))
    ensures IsThumbExtended(Mirror(lm)) == IsThumbExtended(lm)
  {
    var m := Mirror(lm);
    assert m[ThumbTip].x == 1.0 - lm[ThumbTip].x && m[ThumbIp].x == 1.0 - lm[ThumbIp].x;
    assert m[ThumbMcp].x == 1.0 - lm[ThumbMcp].x;
    assert m[ThumbTip].y == lm[ThumbTip].y && m[ThumbIp].y == lm[ThumbIp].y && m[ThumbMcp].y == lm[ThumbMcp].y;
  }

  /** Every rule reads fingers vertically, the thumb in both horizontal
      directions and the touch test through a square, so the classification of
      a hand and of its mirror image coincide. */
  lemma ClassifyIgnoresHandedness(lm: seq<Landmark>)
    requires HasAllLandmarks(lm)
    ensures HasAllLandmarks(Mirror(lm))
    ensures ClassifyHandGesture(Mirror(lm)) == ClassifyHandGesture(lm)
  {
    var m := Mirror(lm);
    ThumbTestIgnoresHandedness(lm);
    forall f: Finger
      ensures Flags(m, f) == Flags(lm, f)
    {
      assert m[Tip(f)].y == lm[Tip(f)].y && m[Pip(f)].y == lm[Pip(f)].y && m[Mcp(f)].y == lm[Mcp(f)].y;
    }
    var dx := lm[ThumbTip].x - lm[IndexTip].x;
    assert m[ThumbTip].x - m[IndexTip].x == -dx;
    assert (-dx) * (-dx) == dx * dx;
    assert m[ThumbTip].y == lm[ThumbTip].y && m[IndexTip].y == lm[IndexTip].y;
    assert ThumbTouchesIndex(m) == ThumbTouchesIndex(lm);
    assert Report(m) == Report(lm);
  }

}
