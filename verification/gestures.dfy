/** The static hand poses the translator recognises, the text each one stands
    for, and the fixed confidence reported with each. */
module Gestures {

  /** The seven gesture names the classifier can return
      ('fist', 'peace', 'thumbs_up', 'open_palm', 'pointing', 'L_shape', 'ok_sign'). */
  datatype Gesture = Fist | Peace | ThumbsUp | OpenPalm | Pointing | LShape | OkSign

  /** One classification: a gesture name with its confidence score. */
  datatype Detection = Detection(gesture: Gesture, confidence: real)

  /** `signMapping`: the ASL letter or word each gesture is translated to. */
  function SignMapping(g: Gesture): (t: string)
    ensures |t| > 0
    ensures forall i :: 0 <= i < |t| ==> t[i] != ' '
  {
    match g
    case Fist => "A"
    case Peace => "V"
    case ThumbsUp => "Good"
    case OpenPalm => "Stop"
    case Pointing => "I"
    case LShape => "L"
    case OkSign => "O"
  }

  /** The confidence the classifier reports for each gesture. */
  function FixedConfidence(g: Gesture): (c: real)
    ensures 0.8 <= c <= 0.9
  {
    match g
    case ThumbsUp => 0.9
    case Fist => 0.9
    case Peace => 0.85
    case OpenPalm => 0.85
    case Pointing => 0.8
    case LShape => 0.8
    case OkSign => 0.8
  }

}
