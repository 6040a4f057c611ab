/**
  The temporal stabiliser: every non-null classification is pushed onto a
  buffer of the last 10 gesture names; when one name fills at least 4 of the
  last 5 entries it is translated and appended to the text, unless the text
  already ends with that translation, and the commit is logged in a history of
  the last 10 entries.
 */
module Stabilizer {
  import opened Options
  import opened Seqs
  import opened Gestures

  const BufferCapacity: nat := 10
  const WindowSize: nat := 5
  const CommitThreshold: nat := 4
  const HistoryCapacity: nat := 10

  /** One history item; the timestamp is the locale time string of the commit. */
  datatype Entry = Entry(gesture: Gesture, translation: string, timestamp: string)

  /** The gesture buffer, the translated text and the history. */
  datatype State = State(buffer: seq<Gesture>, text: string, history: seq<Entry>)

  /** The state when the component mounts. */
  const Initial := State([], "", [])

  /** `push` followed by a single `shift` when the buffer has grown past 10. */
  function PushBuffer(buffer: seq<Gesture>, g: Gesture): (r: seq<Gesture>)
    ensures 0 < |r| <= |buffer| + 1 && r[|r| - 1] == g
    ensures r == (buffer + [g])[|buffer| + 1 - |r|..]
    ensures |buffer| <= BufferCapacity ==> r == TakeLast(buffer + [g], BufferCapacity)
  {
    var b := buffer + [g];
    if |b| > BufferCapacity then b[1..] else b
  }

  /** `slice(-5)`: the entries the vote looks at. */
  function Window(buffer: seq<Gesture>): (w: seq<Gesture>)
    ensures |w| == if |buffer| < WindowSize then |buffer| else WindowSize
    ensures w == buffer[|buffer| - |w|..]
    ensures |buffer| > 0 ==> w[|w| - 1] == buffer[|buffer| - 1]
    ensures |buffer| == BufferCapacity ==> w == buffer[5..]
  {
    TakeLast(buffer, WindowSize)
  }

  /** A window of at most 5 entries holds at most one name 4 times, and that
      name is the vote's winner. */
  lemma ThresholdWinner(w: seq<Gesture>, g: Gesture)
    requires |w| <= WindowSize && Count(w, g) >= CommitThreshold
    ensures |w| > 0 && MostCommon(w) == g
    ensures forall h :: h != g ==> Count(w, h) < CommitThreshold
  {
    MajorityIsMostCommon(w, g);
    forall h | h != g
      ensures Count(w, h) < CommitThreshold
    {
      CountTwo(w, g, h);
    }
  }

  /** The gesture `processGesture` hands to `translateGesture`: the most common
      name of the window, provided it fills at least 4 of its entries. */
  function StableGesture(buffer: seq<Gesture>): (r: Option<Gesture>)
    requires |buffer| > 0
    ensures r.Some? <==> exists g :: Count(Window(buffer), g) >= CommitThreshold
    ensures r.Some? ==> forall g :: Count(Window(buffer), g) >= CommitThreshold <==> g == r.value
  {
    var w := Window(buffer);
    var m := MostCommon(w);
    if Count(w, m) >= CommitThreshold then
      ThresholdWinner(w, m);
      Some(m)
    else
      assert forall g :: Count(w, g) < CommitThreshold by {
        forall g ensures Count(w, g) < CommitThreshold {
          if Count(w, g) >= CommitThreshold {
            ThresholdWinner(w, g);
          }
        }
      }
      None
  }

  /** `translateGesture` against the current text: append the translation and a
      space unless the text already ends with the translation, and log the commit. */
  function TranslateGesture(st: State, g: Gesture, time: string): (r: State)
    ensures r.buffer == st.buffer
    ensures st.text <= r.text
    ensures r.text == st.text ==> r == st
    ensures |st.history| <= HistoryCapacity ==> |r.history| <= HistoryCapacity
  {
    var t := SignMapping(g);
    // The source also requires the translation to be truthy, i.e. non-empty.
    if |t| > 0 && t != TakeLast(st.text, |t|) then
      st.(text := st.text + t + " ",
          history := TakeLast(st.history + [Entry(g, t, time)], HistoryCapacity))
    else
      st
  }

  /** The commit rule of `translateGesture` on any text: the translation and a
      space are appended, and the commit logged in the last 10 history entries,
      exactly when the text does not already end with the translation (the whole
      text is compared when it is shorter); otherwise nothing changes. */
  lemma TranslateGestureCommitsIff(st: State, g: Gesture, time: string)
    ensures var r := TranslateGesture(st, g, time);
            var t := SignMapping(g);
            && (r.text != st.text <==> t != TakeLast(st.text, |t|))
            && (r.text != st.text ==>
                  && r.text == st.text + t + " "
                  && r.history == TakeLast(st.history + [Entry(g, t, time)], HistoryCapacity))
            && (r.text == st.text ==> r.history == st.history)
  {
    var t := SignMapping(g);
    assert |st.text + t + " "| > |st.text|;
  }

  /** The check does suppress on a text that ends with the translation but not
      with a space, a text the translator itself never produces. */
  lemma TranslateSuppressesWithoutTrailingSpace(time: string)
    ensures TranslateGesture(State([], "A", []), Fist, time) == State([], "A", [])
  {
    assert TakeLast("A", 1) == "A";
  }

  /** `processGesture` for one non-null classification. */
  function ProcessGesture(st: State, g: Gesture, time: string): (r: State)
    ensures r.buffer == PushBuffer(st.buffer, g)
    ensures StableGesture(r.buffer).None? ==> r.text == st.text && r.history == st.history
    ensures st.text <= r.text
  {
    var b := PushBuffer(st.buffer, g);
    match StableGesture(b)
    case Some(m) => TranslateGesture(st.(buffer := b), m, time)
    case None => st.(buffer := b)
  }

  /** Pushing the last name onto the capped buffer of the earlier ones caps it
      the same way as capping the whole stream. */
  lemma BufferSnoc(b: seq<Gesture>, gs: seq<Gesture>)
    requires |gs| > 0
    ensures TakeLast(TakeLast(b + gs[..|gs| - 1], BufferCapacity) + [gs[|gs| - 1]], BufferCapacity)
            == TakeLast(b + gs, BufferCapacity)
  {
    TakeLastConcat(b + gs[..|gs| - 1], [gs[|gs| - 1]], BufferCapacity);
    assert b + gs[..|gs| - 1] + [gs[|gs| - 1]] == b + gs;
  }

  /** `processGesture` applied to each name of `gs` in turn. */
  function ObserveAll(st: State, gs: seq<Gesture>, time: string): (r: State)
    ensures |st.buffer| <= BufferCapacity ==> r.buffer == TakeLast(st.buffer + gs, BufferCapacity)
    ensures st.text <= r.text
    decreases |gs|
  {
    if |gs| == 0 then
      assert st.buffer + gs == st.buffer;
      st
    else
      var init := gs[..|gs| - 1];
      var prev := ObserveAll(st, init, time);
      BufferSnoc(st.buffer, gs);
      ProcessGesture(prev, gs[|gs| - 1], time)
  }

  lemma EmptyStream(st: State, time: string)
    ensures ObserveAll(st, [], time) == st
  {
  }

  /** `clearText`: empty the text, the history and the buffer. */
  function ClearText(st: State): (r: State)
    ensures r.buffer == [] && r.text == "" && r.history == []
    ensures r == Initial
  {
    State([], "", [])
  }

  /** Clearing twice is clearing once. */
  lemma ClearTextIdempotent(st: State)
    ensures ClearText(ClearText(st)) == ClearText(st)
  {
  }

  /** The text a sequence of commits produces: each translation followed by a space. */
  function Render(gs: seq<Gesture>): string
  {
    if |gs| == 0 then "" else Render(gs[..|gs| - 1]) + SignMapping(gs[|gs| - 1]) + " "
  }

  /** What every state the translator can reach satisfies. */
  ghost predicate Reachable(st: State)
  {
    && |st.buffer| <= BufferCapacity
    && |st.history| <= HistoryCapacity
    && exists gs :: st.text == Render(gs)
  }

  lemma InitialReachable()
    ensures Reachable(Initial)
  {
    assert Initial.text == Render([]);
  }

  /** A rendered text is empty or ends in a space, while no translation is empty
      or ends in a space: the trailing characters never equal the translation. */
  lemma {:induction false} RenderedTextNeverEndsWithToken(gs: seq<Gesture>, g: Gesture)
    ensures TakeLast(Render(gs), |SignMapping(g)|) != SignMapping(g)
  {
    var t := SignMapping(g);
    var tail := TakeLast(Render(gs), |t|);
    if |gs| > 0 {
      var text := Render(gs);
      assert text[|text| - 1] == ' ';
      assert |tail| > 0 && tail[|tail| - 1] == text[|text| - 1];
      assert tail[|tail| - 1] != t[|t| - 1];
    }
  }

  /** On a reachable text the duplicate check never suppresses: every call
      appends the translation and a space and logs the commit. */
  lemma TranslateAlwaysCommits(st: State, g: Gesture, time: string)
    requires exists gs :: st.text == Render(gs)
    ensures TranslateGesture(st, g, time)
            == st.(text := st.text + SignMapping(g) + " ",
                   history := TakeLast(st.history + [Entry(g, SignMapping(g), time)], HistoryCapacity))
  {
    var gs :| st.text == Render(gs);
    RenderedTextNeverEndsWithToken(gs, g);
  }

  lemma TranslatePreservesReachable(st: State, g: Gesture, time: string)
    requires Reachable(st)
    ensures Reachable(TranslateGesture(st, g, time))
  {
    var gs :| st.text == Render(gs);
    TranslateAlwaysCommits(st, g, time);
    assert (gs + [g])[..|gs|] == gs;
    assert TranslateGesture(st, g, time).text == Render(gs + [g]);
  }

  lemma ProcessGesturePreservesReachable(st: State, g: Gesture, time: string)
    requires Reachable(st)
    ensures Reachable(ProcessGesture(st, g, time))
  {
    var b := PushBuffer(st.buffer, g);
    assert Reachable(st.(buffer := b));
    match StableGesture(b)
    case Some(m) => TranslatePreservesReachable(st.(buffer := b), m, time);
    case None =>
  }

  /** From a reachable state, one observation changes the text exactly when the
      vote finds a name filling at least 4 of the last 5 buffer entries; the text
      then grows by that name's translation and a space, and the commit is logged. */
  lemma ProcessGestureCommitsIff(st: State, g: Gesture, time: string)
    requires Reachable(st)
    ensures var r := ProcessGesture(st, g, time);
            r.text != st.text <==> StableGesture(r.buffer).Some?
    ensures var r := ProcessGesture(st, g, time);
            var x := StableGesture(r.buffer);
            x.Some? ==>
              && r.text == st.text + SignMapping(x.value) + " "
              && r.history == TakeLast(st.history + [Entry(x.value, SignMapping(x.value), time)], HistoryCapacity)
  {
    var b := PushBuffer(st.buffer, g);
    var sg := StableGesture(b);
    if sg.Some? {
      TranslateAlwaysCommits(st.(buffer := b), sg.value, time);
    }
  }

  lemma {:induction false} ObserveAllPreservesReachable(st: State, gs: seq<Gesture>, time: string)
    requires Reachable(st)
    ensures Reachable(ObserveAll(st, gs, time))
    decreases |gs|
  {
    if |gs| > 0 {
      ObserveAllPreservesReachable(st, gs[..|gs| - 1], time);
      ProcessGesturePreservesReachable(ObserveAll(st, gs[..|gs| - 1], time), gs[|gs| - 1], time);
    }
  }

  /** A buffer without neighbouring repeats never passes the vote: a window of
      5 can hold the same name at most 3 times. */
  lemma NoAdjacentRepeatNotStable(b: seq<Gesture>)
    requires |b| > 0 && NoAdjacentRepeat(b)
    ensures StableGesture(b).None?
  {
    var w := Window(b);
    NoAdjacentRepeatSuffix(b, |b| - |w|);
    forall x
      ensures Count(w, x) < CommitThreshold
    {
      CountWithoutAdjacentRepeat(w, x);
    }
  }

  /** A stream in which no two neighbouring observations agree, such as two
      alternating gestures, never changes the text or the history. */
  lemma {:induction false} NoAdjacentRepeatNeverCommits(st: State, gs: seq<Gesture>, time: string)
    requires |st.buffer| <= BufferCapacity && NoAdjacentRepeat(st.buffer + gs)
    ensures ObserveAll(st, gs, time).text == st.text
    ensures ObserveAll(st, gs, time).history == st.history
    decreases |gs|
  {
    if |gs| > 0 {
      var all := st.buffer + gs;
      var init := gs[..|gs| - 1];
      assert st.buffer + init == all[..|all| - 1];
      NoAdjacentRepeatPrefix(all, |all| - 1);
      NoAdjacentRepeatNeverCommits(st, init, time);
      var r := ObserveAll(st, gs, time);
      var k := |all| - |r.buffer|;
      assert r.buffer == all[k..];
      NoAdjacentRepeatSuffix(all, k);
      NoAdjacentRepeatNotStable(r.buffer);
    }
  }

  /** `n` observations of the same gesture. */
  function Repeat(g: Gesture, n: nat): seq<Gesture>
  {
    seq(n, _ => g)
  }

  lemma {:induction false} CountRepeat(g: Gesture, n: nat)
    ensures Count(Repeat(g, n), g) == n
  {
    if n > 0 {
      assert Repeat(g, n)[..n - 1] == Repeat(g, n - 1);
      CountRepeat(g, n - 1);
    }
  }

  /** Processing the observations one more at the end is one more `processGesture`. */
  lemma ObserveAllSnoc(st: State, gs: seq<Gesture>, g: Gesture, time: string)
    ensures ObserveAll(st, gs + [g], time) == ProcessGesture(ObserveAll(st, gs, time), g, time)
  {
    assert (gs + [g])[..|gs|] == gs;
  }

  /** Running observations in two batches is the same as running them at once:
      the buffer persists across frames. */
  lemma {:induction false} ObserveAllAppend(st: State, a: seq<Gesture>, b: seq<Gesture>, time: string)
    ensures ObserveAll(ObserveAll(st, a, time), b, time) == ObserveAll(st, a + b, time)
    decreases |b|
  {
    if |b| == 0 {
      assert a + b == a;
    } else {
      var n := |b| - 1;
      var front := b[..n];
      var last := b[n];
      assert front + [last] == b;
      assert (a + front) + [last] == a + b;
      var mid := ObserveAll(st, a, time);
      ObserveAllAppend(st, a, front, time);
      ObserveAllSnoc(mid, front, last, time);
      ObserveAllSnoc(st, a + front, last, time);
    }
  }

  function Min(a: nat, b: nat): nat
  {
    if a < b then a else b
  }

  lemma RepeatSnoc(g: Gesture, n: nat)
    requires n > 0
    ensures Repeat(g, n - 1) + [g] == Repeat(g, n)
  {
  }

  lemma PushRepeat(g: Gesture, n: nat)
    requires n > 0
    ensures PushBuffer(Repeat(g, Min(n - 1, BufferCapacity)), g) == Repeat(g, Min(n, BufferCapacity))
  {
    var b := Repeat(g, Min(n - 1, BufferCapacity)) + [g];
    var e := Repeat(g, Min(n, BufferCapacity));
    if n - 1 < BufferCapacity {
      assert b == e;
    } else {
      assert b[1..] == e;
    }
  }

  lemma WindowRepeat(g: Gesture, n: nat)
    ensures Window(Repeat(g, n)) == Repeat(g, Min(n, WindowSize))
  {
    var r := Window(Repeat(g, n));
    var e := Repeat(g, Min(n, WindowSize));
    assert |r| == |e|;
    forall i | 0 <= i < |r|
      ensures r[i] == e[i]
    {
    }
  }

  lemma RenderRepeat(g: Gesture, n: nat)
    requires n > 0
    ensures Render(Repeat(g, n)) == Render(Repeat(g, n - 1)) + SignMapping(g) + " "
  {
    assert Repeat(g, n)[..n - 1] == Repeat(g, n - 1);
  }

  lemma AppendRendered(prefix: string, g: Gesture, n: nat)
    requires n > 0
    ensures prefix + Render(Repeat(g, n - 1)) + SignMapping(g) + " " == prefix + Render(Repeat(g, n))
  {
    RenderRepeat(g, n);
  }

  /** One more frame of a held gesture: the buffer stays full of it, and from
      the fourth frame on its translation is appended. */
  lemma HoldStep(prev: State, g: Gesture, n: nat, time: string)
    requires Reachable(prev) && n > 0 && prev.buffer == Repeat(g, Min(n - 1, BufferCapacity))
    ensures var r := ProcessGesture(prev, g, time);
            && r.buffer == Repeat(g, Min(n, BufferCapacity))
            && r.text == if n < 4 then prev.text else prev.text + SignMapping(g) + " "
  {
    PushRepeat(g, n);
    HeldVote(g, n);
    ProcessGestureCommitsIff(prev, g, time);
  }

  /** The vote over a buffer holding only `g`: it passes from the fourth entry on. */
  lemma HeldVote(g: Gesture, n: nat)
    requires n > 0
    ensures StableGesture(Repeat(g, Min(n, BufferCapacity))) == if n < 4 then None else Some(g)
  {
    var b := Repeat(g, Min(n, BufferCapacity));
    HeldWindow(g, n);
    if n < 4 {
      HeldVoteShort(Window(b), g);
    }
  }

  lemma HeldWindow(g: Gesture, n: nat)
    ensures var w := Window(Repeat(g, Min(n, BufferCapacity)));
            Count(w, g) == |w| == Min(n, WindowSize)
  {
    WindowRepeat(g, Min(n, BufferCapacity));
    CountRepeat(g, Min(n, WindowSize));
  }

  lemma HeldVoteShort(w: seq<Gesture>, g: Gesture)
    requires Count(w, g) == |w| < CommitThreshold
    ensures forall x :: Count(w, x) < CommitThreshold
  {
    forall x
      ensures Count(w, x) < CommitThreshold
    {
      if x != g {
        CountTwo(w, g, x);
      }
    }
  }

  /** The text part of `HoldStep`, relative to the text before the gesture was
      first observed. */
  lemma HeldFrame(start: string, prev: State, g: Gesture, n: nat, time: string)
    requires Reachable(prev) && n > 0 && prev.buffer == Repeat(g, Min(n - 1, BufferCapacity))
    requires prev.text == start + Render(Repeat(g, if n - 1 < 3 then 0 else n - 4))
    ensures var r := ProcessGesture(prev, g, time);
            && r.text == start + Render(Repeat(g, if n < 3 then 0 else n - 3))
            && r.buffer == Repeat(g, Min(n, BufferCapacity))
            && Reachable(r)
  {
    ProcessGesturePreservesReachable(prev, g, time);
    HoldStep(prev, g, n, time);
    if n >= 4 {
      AppendRendered(start, g, n - 3);
    }
  }

  /** Holding one gesture, starting from an empty buffer (at mount or after a
      clear), commits its translation on the fourth frame and on every frame after
      it: the duplicate check compares the translation with text that ends in a
      space, so it never suppresses. */
  lemma {:induction false} HeldGestureCommitsEveryFrame(st: State, g: Gesture, n: nat, time: string)
    requires Reachable(st) && st.buffer == []
    ensures HeldOutcome(st, g, n, ObserveAll(st, Repeat(g, n), time))
  {
    if n == 0 {
      HeldStart(st, g, time);
    } else {
      HeldGestureCommitsEveryFrame(st, g, n - 1, time);
      HeldNext(st, g, n, time);
    }
  }

  /** What holding `g` for `n` frames from `st` leads to. */
  ghost predicate HeldOutcome(st: State, g: Gesture, n: nat, r: State)
  {
    && r.text == st.text + Render(Repeat(g, if n < 3 then 0 else n - 3))
    && r.buffer == Repeat(g, Min(n, BufferCapacity))
    && Reachable(r)
  }

  lemma HeldStart(st: State, g: Gesture, time: string)
    requires Reachable(st) && st.buffer == []
    ensures HeldOutcome(st, g, 0, ObserveAll(st, Repeat(g, 0), time))
  {
    assert Repeat(g, 0) == [];
    assert st.text + "" == st.text;
  }

  lemma HeldNext(st: State, g: Gesture, n: nat, time: string)
    requires n > 0 && HeldOutcome(st, g, n - 1, ObserveAll(st, Repeat(g, n - 1), time))
    ensures HeldOutcome(st, g, n, ObserveAll(st, Repeat(g, n), time))
  {
    var prev := ObserveAll(st, Repeat(g, n - 1), time);
    RepeatSnoc(g, n);
    ObserveAllSnoc(st, Repeat(g, n - 1), g, time);
    HeldFrame(st.text, prev, g, n, time);
  }

  lemma ConcatAssoc(a: string, b: string, c: string)
    ensures a + (b + c) == a + b + c
  {
  }

  lemma RenderFew(g: Gesture)
    ensures Render(Repeat(g, 0)) == ""
    ensures Render(Repeat(g, 1)) == SignMapping(g) + " "
    ensures Render(Repeat(g, 2)) == SignMapping(g) + " " + SignMapping(g) + " "
  {
    assert Repeat(g, 0) == [];
    RenderRepeat(g, 1);
    RenderRepeat(g, 2);
  }

  lemma RenderFists()
    ensures Render(Repeat(Fist, 0)) == ""
    ensures Render(Repeat(Fist, 1)) == "A "
    ensures Render(Repeat(Fist, 2)) == "A A "
  {
    RenderFew(Fist);
  }

  /** Holding a fist commits "A " on the fourth frame and again on the fifth. */
  lemma HeldFistCommitsTwice(st: State, time: string)
    requires Reachable(st) && st.buffer == []
    ensures ObserveAll(st, Repeat(Fist, 3), time).text == st.text
    ensures ObserveAll(st, Repeat(Fist, 4), time).text == st.text + "A "
    ensures ObserveAll(st, Repeat(Fist, 5), time).text == st.text + "A A "
  {
    RenderFists();
    assert st.text + "" == st.text;
    HeldText(st, Fist, 3, time);
    HeldText(st, Fist, 4, time);
    HeldText(st, Fist, 5, time);
  }

  lemma HeldText(st: State, g: Gesture, n: nat, time: string)
    requires Reachable(st) && st.buffer == []
    ensures ObserveAll(st, Repeat(g, n), time).text == st.text + Render(Repeat(g, if n < 3 then 0 else n - 3))
  {
    HeldGestureCommitsEveryFrame(st, g, n, time);
  }

  /** A gesture observed twice in each of two frames commits during the
      second frame. */
  lemma HeldInTwoBatches(st: State, g: Gesture, time: string)
    requires Reachable(st) && st.buffer == []
    ensures ObserveAll(st, Repeat(g, 2), time).text == st.text
    ensures ObserveAll(ObserveAll(st, Repeat(g, 2), time), Repeat(g, 2), time).text
            == st.text + SignMapping(g) + " "
  {
    assert Repeat(g, 4) == Repeat(g, 2) + Repeat(g, 2);
    RenderFew(g);
    assert st.text + "" == st.text;
    ConcatAssoc(st.text, SignMapping(g), " ");
    HeldText(st, g, 2, time);
    HeldText(st, g, 4, time);
    ObserveAllAppend(st, Repeat(g, 2), Repeat(g, 2), time);
  }

  /** The alternating stream fist, peace, fist, ... never commits. */
  lemma AlternatingStreamNeverCommits(time: string)
    ensures var r := ObserveAll(Initial, [Fist, Peace, Fist, Peace, Fist, Peace, Fist, Peace], time);
            r.text == "" && r.history == []
  {
    var gs := [Fist, Peace, Fist, Peace, Fist, Peace, Fist, Peace];
    assert Initial.buffer + gs == gs;
    assert NoAdjacentRepeat(gs) by {
      forall i | 0 < i < |gs|
        ensures gs[i - 1] != gs[i]
      {
      }
    }
    NoAdjacentRepeatNeverCommits(Initial, gs, time);
  }

  /** After clearing, holding a fist for four frames commits "A " again: the
      duplicate check looks only at the current text. */
  lemma ClearThenFistCommits(st: State, time: string)
    ensures ObserveAll(ClearText(st), Repeat(Fist, 4), time).text == "A "
  {
    assert ClearText(st) == Initial;
    FistFromInitial(time);
  }

  lemma FistFromInitial(time: string)
    ensures ObserveAll(Initial, Repeat(Fist, 4), time).text == "A "
  {
    InitialReachable();
    HeldText(Initial, Fist, 4, time);
    RenderFists();
    assert Initial.text + "A " == "A ";
  }

}
