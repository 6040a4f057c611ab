# Sign-Speak-AI: the gesture classifier and the translation state machine

Sign-Speak-AI is a browser component. A hand-tracking model delivers, for every
camera frame, 21 landmarks per detected hand. The component turns those
landmarks into text in three steps:

1. **Classify each hand.** `classifyHandGesture` derives per-finger flags
   ("extended", "curled", "thumb extended") from the landmark coordinates and
   counts them. It then applies seven rules in a fixed order. The first rule
   that holds names one of seven gestures, each with a fixed confidence. When
   no rule holds, the result is `null`.
2. **Stabilise over time.** `processGesture` pushes each recognised gesture
   name onto a buffer of the last 10 names. It commits a name only when that
   name fills at least 4 of the last 5 entries. The winner is chosen by
   `getMostCommon`.
3. **Translate.** `translateGesture` appends the name's ASL translation and a
   space to the text, unless the text already ends with that translation. It
   logs the commit in a history of the last 10 entries. `clearText` resets
   everything.

The hand loop of `onResults` runs every hand of a frame through steps 1 and 2,
in order, into the one shared buffer.

The Dafny project models this core with immutable values and pure functions.

| file | module | what it holds |
|---|---|---|
| `options.dfy` | `Options` | `Option`, standing in for JavaScript `null` |
| `seqs.dfy` | `Seqs` | JavaScript `slice(-n)` (`TakeLast`), counting, `Object.keys` order (`Keys`), the `reduce` of `getMostCommon` (`ReduceKeys`, `MostCommon`) and an independent description of its result (`IsLatestMode`) |
| `gestures.dfy` | `Gestures` | the seven gesture names, `signMapping`, the fixed confidences |
| `classifier.dfy` | `Classifier` | landmarks, the finger tests, the finger report, the rule chain, and lemmas on rule priority and the inputs that do not matter |
| `frame.dfy` | `Frame` | the `onResults` hand loop as a method, its functional reference, and the stale-closure finding |
| `stabilizer.dfy` | `Stabilizer` | the buffer, the vote, `translateGesture`, `processGesture`, `clearText`, the reachable states and the held or alternating gesture streams |

Modelling choices:

- **Landmarks.** A landmark is a record of three `real`s. A hand is a
  sequence of at least 21 landmarks.
- **Touch test.** `distance(thumbTip, indexTip) < 0.05` becomes
  `dx*dx + dy*dy < 0.0025`. Over the reals both sides are non-negative, so
  the two tests are equivalent (`Classifier.TouchIsDistanceBelowThreshold`).
- **Current text.** The translated text is modelled as the current state. The
  component as registered reads a stale copy of it (see "## Findings").
- **Timestamps.** The history timestamp is an opaque string parameter. A
  single call takes one timestamp, so the lemmas about several frames
  (`Frame.TwoFramesShareBuffer`, `Stabilizer.HeldInTwoBatches`,
  `Stabilizer.HeldGestureCommitsEveryFrame` and the other held-gesture
  lemmas) give every frame of the stream the same timestamp.
- **Duplicate check.** It compares the translation with the last
  `|translation|` characters of the text. It can never suppress a commit on
  text the component itself produced, because that text is empty or ends with
  a space (`Stabilizer.TranslateAlwaysCommits`). It does suppress on text
  that ends with the translation itself, such as "A" for a fist
  (`Stabilizer.TranslateSuppressesWithoutTrailingSpace`); on text such as
  "B" a fist still commits.
- **Held gestures.** A gesture held in front of the camera is committed on
  its fourth frame (counting from an empty buffer). It is committed again on
  every frame after that. With the commit appending to the current text, a
  held fist yields "A ", then "A A " (`Stabilizer.HeldFistCommitsTwice`). The
  component as registered replaces the text on each commit instead (see
  "## Findings"), so there the screen keeps showing "A ".

Where the code differs from what its comments or a natural reading of it
suggest, the model follows the code:

- **Null results.** A `null` classification adds nothing to the buffer.
  There is no "none" entry.
- **One buffer.** All hands of a frame feed one buffer.
- **Ties.** A tie in `getMostCommon` goes to the name that first occurs
  later, because `reduce` keeps its accumulator only on a strictly greater
  count.
- **No suppression.** The duplicate check never suppresses in practice, as
  described above.
- **Thumb and fist.** The comment above the fist rule
  (src/SignLanguageTranslator.jsx:223) says the thumb "may or may not be
  extended". In fact, a fist is never reported with the thumb extended,
  because the thumbs-up rule fires first
  (`Classifier.CurledHandWithThumbIsThumbsUp`).
- **L shape.** The comment above the L-shape rule
  (src/SignLanguageTranslator.jsx:243) describes the thumb and index finger
  extended with the others curled. That pose is reported as thumbs up, since
  three curled fingers and one extended finger already satisfy the
  thumbs-up rule (`Classifier.LShapePoseIsThumbsUp`). An L shape is reported only when one of the middle, ring and
  pinky fingers counts as both extended and curled
  (`Classifier.LShapeNeedsAmbiguousFinger`).

## Model

| member | source | states |
|---|---|---|
| Gestures.SignMapping | src/SignLanguageTranslator.jsx:25-33 | every gesture has a non-empty translation containing no space |
| Gestures.FixedConfidence | src/SignLanguageTranslator.jsx:219-252 | each gesture's confidence lies between 0.8 and 0.9 |
| Classifier.IsFingerExtended | src/SignLanguageTranslator.jsx:142-149 | an extended finger has its tip above both its PIP and its MCP joint |
| Classifier.IsFingerCurled | src/SignLanguageTranslator.jsx:177-184 | a finger is curled exactly when its tip is less than 0.02 above its PIP joint; the MCP joint plays no part |
| Classifier.IsThumbExtended | src/SignLanguageTranslator.jsx:152-169 | an extended thumb has its tip off the MCP joint sideways or above it; a thumb whose three joints share one x counts only when it points strictly upwards |
| Classifier.ThumbTouchesIndex | src/SignLanguageTranslator.jsx:172-174 | touching thumb and index tips are less than 0.05 apart in each of x and y |
| Classifier.TouchIsDistanceBelowThreshold | src/SignLanguageTranslator.jsx:172-174 | the squared test holds exactly when the Euclidean distance of the two tips is below 0.05 |
| Classifier.ThumbTestIgnoresHandedness | src/SignLanguageTranslator.jsx:152-169 | mirroring the hand left to right leaves the thumb flag unchanged |
| Classifier.ClassifyIgnoresHandedness | src/SignLanguageTranslator.jsx:132-252 | a hand and its mirror image get the same classification and report |
| Classifier.Rules | src/SignLanguageTranslator.jsx:219-254 | a reported gesture carries its fixed confidence and its own rule holds; thumbs up wins whenever its rule holds; four extended fingers always give some gesture |
| Classifier.Report | src/SignLanguageTranslator.jsx:186-201 | the thumb flag is the thumb test; each finger's flags are its extended and curled tests; each count is the number of true flags; both counts are at most 4; a count is 0 or 4 exactly when no flag or every flag is set |
| Classifier.CountOfFour | src/SignLanguageTranslator.jsx:200-201 | `[a, b, c, d].filter(Boolean).length` is the number of true values among the four |
| Classifier.ClassifyHandGesture | src/SignLanguageTranslator.jsx:132-255 | the result is `null` or one of the seven gestures with its fixed confidence; the report is the hand's finger flags and counts; four extended fingers always give open palm at 0.85; thumbs up implies an extended thumb and at most one extended finger; fist and pointing imply the thumb is not extended; fist implies four curled fingers; L shape implies at least two extended fingers; OK sign implies the index finger is not extended and exactly three fingers are |
| Classifier.ClassifyFirstMatch | src/SignLanguageTranslator.jsx:219-252 | a gesture is reported exactly when its rule holds and no earlier rule holds |
| Classifier.ClassifyNoMatch | src/SignLanguageTranslator.jsx:219-254 | the result is `null` exactly when none of the seven rules holds |
| Classifier.ExtendedAndCurled | src/SignLanguageTranslator.jsx:142-184 | a finger is both extended and curled exactly when tip, PIP and MCP rise strictly upwards and the tip is less than 0.02 above the PIP joint |
| Classifier.LShapeNeedsAmbiguousFinger | src/SignLanguageTranslator.jsx:219-246 | an L shape is only reported when the middle, ring or pinky finger is both extended and curled |
| Classifier.LShapePoseIsThumbsUp | src/SignLanguageTranslator.jsx:219-246 | thumb and index extended with the other three fingertips level with or below their PIP joints is reported as thumbs up, not L shape |
| Classifier.CurledHandWithThumbIsThumbsUp | src/SignLanguageTranslator.jsx:219-226 | with the thumb extended and every fingertip level with or below its PIP joint, the result is thumbs up, never fist |
| Classifier.ClassifyDependsOnlyOnReadings | src/SignLanguageTranslator.jsx:132-252 | two hands that agree on the x and y coordinates the rules read get the same classification and report |
| Classifier.ClassifyIgnoresDepthAndUnreadLandmarks | src/SignLanguageTranslator.jsx:132-252 | no z coordinate, and no coordinate of landmarks 0, 1, 7, 11, 15 or 19, affects the classification |
| Seqs.TakeLast | src/SignLanguageTranslator.jsx:268 | `slice(-n)` returns a suffix: the last n elements, or the whole input when it is shorter |
| Seqs.TakeLastConcat | src/SignLanguageTranslator.jsx:262-265 | capping to the last n, appending, and capping again equals appending then capping once |
| Seqs.Count | src/SignLanguageTranslator.jsx:271 | `filter(g => g === x).length` never exceeds the length |
| Seqs.CountTwo | src/SignLanguageTranslator.jsx:271 | the counts of two different names add up to at most the length |
| Seqs.Keys | src/SignLanguageTranslator.jsx:314-318 | `Object.keys(counts)` holds each input value exactly once and nothing else |
| Seqs.KeysInFirstOccurrenceOrder | src/SignLanguageTranslator.jsx:314-318 | the keys are listed in the order of their first occurrence in the input |
| Seqs.ReduceKeys | src/SignLanguageTranslator.jsx:318 | the reduction returns the start value or one of the remaining keys, and no key has a higher count |
| Seqs.ReduceKeysKeepsLatestTie | src/SignLanguageTranslator.jsx:318 | a key whose count ties with the result's is never listed after the result |
| Seqs.MostCommon | src/SignLanguageTranslator.jsx:313-319 | `getMostCommon` returns an element of its non-empty input with a count no other element exceeds |
| Seqs.MostCommonIsLatestMode | src/SignLanguageTranslator.jsx:313-319 | the result is the maximal-count element whose first occurrence comes latest |
| Seqs.MostCommonCharacterization | src/SignLanguageTranslator.jsx:313-319 | `getMostCommon` returns `r` if and only if `r` is the maximal-count element whose first occurrence is latest |
| Seqs.MajorityIsMostCommon | src/SignLanguageTranslator.jsx:313-319 | an element filling more than half of the input is what `getMostCommon` returns |
| Seqs.CountWithoutAdjacentRepeat | src/SignLanguageTranslator.jsx:268-271 | in a sequence without equal neighbours, a value fills at most every other position |
| Stabilizer.PushBuffer | src/SignLanguageTranslator.jsx:262-265 | after push and the single shift, the buffer is a non-empty suffix of the old buffer plus the new name, ends with the new name, and is the last at most 10 of them |
| Stabilizer.Window | src/SignLanguageTranslator.jsx:268 | the window is the last min(5, length) entries of the buffer, ends with the newest entry, and on a full buffer is entries 5 to 9 |
| Stabilizer.ThresholdWinner | src/SignLanguageTranslator.jsx:268-271 | a name filling 4 of a window of at most 5 is the only such name and is what `getMostCommon` returns |
| Stabilizer.StableGesture | src/SignLanguageTranslator.jsx:267-273 | a commit is attempted exactly when some name fills at least 4 entries of the last 5; that name is then unique and is the one committed |
| Stabilizer.TranslateGesture | src/SignLanguageTranslator.jsx:321-334 | the buffer is untouched; the old text is a prefix of the new; when the text is unchanged, so is the history; the history keeps at most 10 entries |
| Stabilizer.TranslateGestureCommitsIff | src/SignLanguageTranslator.jsx:321-333 | the text changes exactly when it does not end with the translation; it then grows by the translation and a space, and the history becomes the last 10 of the old history plus the entry; otherwise the history is unchanged |
| Stabilizer.TranslateSuppressesWithoutTrailingSpace | src/SignLanguageTranslator.jsx:323 | on the text "A", a fist commits nothing |
| Stabilizer.ProcessGesture | src/SignLanguageTranslator.jsx:257-274 | the buffer is the pushed buffer; without a stable name the text and history are unchanged; the old text stays a prefix |
| Stabilizer.ProcessGestureCommitsIff | src/SignLanguageTranslator.jsx:257-274 | from a reachable state, one observation changes the text exactly when the vote passes; the text then grows by the winner's translation and a space, and the commit is logged |
| Stabilizer.ObserveAll | src/SignLanguageTranslator.jsx:257-274 | after a stream of names, the buffer is the last 10 of the old buffer followed by the stream; the old text stays a prefix |
| Stabilizer.ObserveAllAppend | src/SignLanguageTranslator.jsx:262-265 | processing two streams one after the other equals processing their concatenation: the buffer persists across calls |
| Stabilizer.ClearText | src/SignLanguageTranslator.jsx:351-355 | the buffer, the text and the history are empty: the mount-time state |
| Stabilizer.ClearTextIdempotent | src/SignLanguageTranslator.jsx:351-355 | clearing twice is clearing once |
| Stabilizer.InitialReachable | src/SignLanguageTranslator.jsx:8-20 | the mount-time state is reachable |
| Stabilizer.RenderedTextNeverEndsWithToken | src/SignLanguageTranslator.jsx:323-324 | a text built from translations each followed by a space never ends with a translation |
| Stabilizer.TranslateAlwaysCommits | src/SignLanguageTranslator.jsx:321-334 | on reachable text the duplicate check never suppresses: the translation and a space are appended and the commit is logged |
| Stabilizer.TranslatePreservesReachable | src/SignLanguageTranslator.jsx:321-334 | `translateGesture` keeps the text a sequence of translations each followed by a space, and both bounds |
| Stabilizer.ProcessGesturePreservesReachable | src/SignLanguageTranslator.jsx:257-274 | `processGesture` keeps the buffer at most 10, the history at most 10, and the text well formed |
| Stabilizer.ObserveAllPreservesReachable | src/SignLanguageTranslator.jsx:257-274 | any stream of observations keeps the state reachable |
| Stabilizer.NoAdjacentRepeatNotStable | src/SignLanguageTranslator.jsx:268-271 | a buffer without equal neighbours never passes the vote |
| Stabilizer.NoAdjacentRepeatNeverCommits | src/SignLanguageTranslator.jsx:268-273 | a stream without equal neighbours, buffer included, never changes the text or the history |
| Stabilizer.AlternatingStreamNeverCommits | src/SignLanguageTranslator.jsx:268-273 | fist and peace alternating for eight frames from mount commit nothing |
| Stabilizer.HeldVote | src/SignLanguageTranslator.jsx:268-271 | a buffer holding only one name passes the vote exactly from its fourth entry on |
| Stabilizer.HoldStep | src/SignLanguageTranslator.jsx:262-273 | one more frame of a held name keeps the buffer full of it and, from the fourth frame on, appends its translation |
| Stabilizer.HeldGestureCommitsEveryFrame | src/SignLanguageTranslator.jsx:257-274 | holding one gesture for n frames from an empty buffer leaves the buffer holding min(n, 10) copies and appends the translation once for each frame from the fourth on |
| Stabilizer.HeldText | src/SignLanguageTranslator.jsx:257-274 | the text after n frames of a held gesture is the old text plus n - 3 translations (none before the fourth frame) |
| Stabilizer.HeldFistCommitsTwice | src/SignLanguageTranslator.jsx:321-324 | a held fist adds nothing after three frames, "A " after four, and "A A " after five |
| Stabilizer.HeldInTwoBatches | src/SignLanguageTranslator.jsx:262-273 | a name observed twice in each of two calls commits during the second |
| Stabilizer.ClearThenFistCommits | src/SignLanguageTranslator.jsx:351-355 | after clearing, four frames of a fist show "A " |
| Frame.Detections | src/SignLanguageTranslator.jsx:76-78 | one classification per hand, in hand order |
| Frame.Names | src/SignLanguageTranslator.jsx:78-80 | the names let through number at most the classifications |
| Frame.NamesAppend | src/SignLanguageTranslator.jsx:76-80 | the names of two runs of hands are the first run's names followed by the second's |
| Frame.NamesEmptyIff | src/SignLanguageTranslator.jsx:78-80 | a frame contributes no name if and only if every hand was classified `null` |
| Frame.NamesSound | src/SignLanguageTranslator.jsx:78-80 | every contributed name is the gesture of some recognised hand |
| Frame.NamesComplete | src/SignLanguageTranslator.jsx:78-80 | every recognised hand's gesture is contributed |
| Frame.DetectedGesturesSound | src/SignLanguageTranslator.jsx:76-80 | every contributed name was the classification of some hand, with that gesture's fixed confidence |
| Frame.HandStep | src/SignLanguageTranslator.jsx:76-81 | one loop iteration is one `processGesture` for a recognised hand and nothing for a `null` one |
| Frame.OnResults | src/SignLanguageTranslator.jsx:74-85 | the loop equals processing the frame's names in hand order; the buffer becomes the last 10 of the old buffer plus those names; a frame without hands, or with only `null` hands, changes nothing; the old text stays a prefix |
| Frame.NoDetectionsLeaveStateAlone | src/SignLanguageTranslator.jsx:74-85 | when no hand is recognised, the buffer, text and history are unchanged |
| Frame.TwoFramesShareBuffer | src/SignLanguageTranslator.jsx:76-81 | two frames processed in turn equal one frame holding both frames' hands |
| Frame.OnResultsPreservesReachable | src/SignLanguageTranslator.jsx:74-85 | a frame keeps the state reachable |
| Frame.TwoHandsCommitOnSecondFrame | src/SignLanguageTranslator.jsx:74-81 | two hands showing the same gesture commit its translation on the second frame, not the fourth |
| Frame.SameGestureTwice | src/SignLanguageTranslator.jsx:76-80 | two hands classified alike contribute that name twice |
| Frame.StaleTranslateGesture | src/SignLanguageTranslator.jsx:321-334 | as registered at mount, a commit sets the text to just the new translation and a space; the history still grows as the last 10 entries |
| Frame.StaleTranslateDropsText | src/SignLanguageTranslator.jsx:321-334 | whenever there is text, the as-registered commit differs from the current-text commit, which keeps the old text as a prefix |
| Frame.StaleTranslateExample | src/SignLanguageTranslator.jsx:323-325 | with "A " on screen, a committed peace sign shows "V " as registered, where the current-text commit shows "A V " |

## Left out

- **Canvas and video drawing.** `drawHandLandmarks` (src/SignLanguageTranslator.jsx:280-311) and the drawing calls in `onResults` (src/SignLanguageTranslator.jsx:62-72) only render.
- **Missing canvas.** The early return when the canvas element is missing (src/SignLanguageTranslator.jsx:61) is a UI-lifecycle guard. The model assumes the canvas exists.
- **MediaPipe and camera.** Setup and lifecycle (src/SignLanguageTranslator.jsx:35-58, 88-117) are an external library and I/O. A frame's landmarks arrive as a parameter.
- **Landmark count.** The model requires at least 21 landmarks per hand. The hand-tracking model always delivers 21, and the source indexes up to 20 without a check.
- **Text-to-speech.** `speakText` (src/SignLanguageTranslator.jsx:336-349) is a browser API.
- **Display-only state.**
  - `setDetectedGesture` and `setConfidence` (src/SignLanguageTranslator.jsx:83-84, 258-259) are not modelled.
  - The `setDebugInfo` side channel (src/SignLanguageTranslator.jsx:203-214) is replaced: the finger report is returned as part of the classification.
  - All JSX markup is left out.
- **Timestamps.** `new Date().toLocaleTimeString()` is a clock read. It is an opaque string parameter, shared by every commit of one call, including the multi-frame lemmas.
- **React's state snapshot.** Apart from the finding below, the model reads and writes the text as current state. React's batching and re-rendering are not modelled.
- **Floating point.** IEEE rounding is not modelled. Coordinates are exact reals, and the square root of the touch test is replaced by the equivalent squared comparison.
- **Mounting.** src/main.jsx only mounts the component and is not part of this model.
- **Unknown gesture names.** A lookup of a name missing from `signMapping` cannot happen: the gesture type is closed. The `translation &&` test is kept as a non-emptiness check.

## Findings

| source | as written | input that shows it | evidently intended | confidence | as-written member | corrected member |
|---|---|---|---|---|---|---|
| src/SignLanguageTranslator.jsx:323-325 | `onResults` is handed to MediaPipe once, at mount (line 56), so the `translateGesture` it reaches reads the mount-time `translatedText`, the empty string. Each commit sets the text to the new translation alone | "A " on screen, then a peace sign held for four frames: the text becomes "V " | the translation is appended to the current text: "A V " | not executed | Frame.StaleTranslateGesture | Stabilizer.TranslateGesture |

The discrepancy itself is stated in two lemmas:

- `Frame.StaleTranslateDropsText`: for every reachable state with text, the two results differ.
- `Frame.StaleTranslateExample`: the concrete case.

The corrected commit keeps the old text as a prefix and always appends on reachable text (`Stabilizer.TranslateAlwaysCommits`). The rest of the model uses it. The history does not suffer from the stale read, because it is updated through a function of its previous value.
