/**
  Sequence operations the translator performs on JavaScript arrays and strings:
  the negative-index `slice(-n)`, counting occurrences, the insertion order of the
  keys of a counting object, and the majority vote of `getMostCommon`.
 */
module Seqs {

  /** JavaScript `s.slice(-n)` for a count n >= 0: the last n elements, or all of `s`
      when it is shorter. Since `-0` is `0`, `slice(-0)` is the whole sequence. */
  function TakeLast<T>(s: seq<T>, n: nat): (r: seq<T>)
    ensures |r| <= |s|
    ensures n > 0 ==> |r| == if |s| < n then |s| else n
    ensures r == s[|s| - |r|..]
  {
    if n == 0 || |s| <= n then s else s[|s| - n..]
  }

  /** Capping before appending and capping again keeps the same suffix as
      capping once at the end: the capped buffer and history forget exactly the
      oldest elements. */
  lemma TakeLastConcat<T>(s: seq<T>, t: seq<T>, n: nat)
    requires n > 0
    ensures TakeLast(TakeLast(s, n) + t, n) == TakeLast(s + t, n)
  {
    if |s| > n {
      var u := TakeLast(s, n) + t;
      assert u == (s + t)[|s| - n..];
      assert TakeLast(u, n) == u[|u| - n..];
      assert u[|u| - n..] == (s + t)[|s + t| - n..];
    }
  }

  /** Number of occurrences of `x` in `s` (`s.filter(e => e === x).length`). */
  function Count<T(==)>(s: seq<T>, x: T): (c: nat)
    ensures c <= |s|
  {
    if |s| == 0 then 0
    else
      assert s == s[..|s| - 1] + [s[|s| - 1]];
      Count(s[..|s| - 1], x) + (if s[|s| - 1] == x then 1 else 0)
  }

  lemma {:induction false} CountPositive<T>(s: seq<T>, x: T)
    requires Count(s, x) > 0
    ensures x in s
  {
    var p := s[..|s| - 1];
    assert s == p + [s[|s| - 1]];
    if s[|s| - 1] != x {
      CountPositive(p, x);
    }
  }

  lemma {:induction false} CountConcat<T>(s: seq<T>, t: seq<T>, x: T)
    ensures Count(s + t, x) == Count(s, x) + Count(t, x)
    decreases |t|
  {
    if |t| == 0 {
      assert s + t == s;
    } else {
      assert (s + t)[..|s + t| - 1] == s + t[..|t| - 1];
      CountConcat(s, t[..|t| - 1], x);
    }
  }

  /** Two different values share the positions of `s`: their counts add up to at most |s|. */
  lemma {:induction false} CountTwo<T>(s: seq<T>, x: T, y: T)
    requires x != y
    ensures Count(s, x) + Count(s, y) <= |s|
  {
    if |s| > 0 {
      CountTwo(s[..|s| - 1], x, y);
    }
  }

  predicate Distinct<T(==)>(s: seq<T>)
  {
    forall i, j :: 0 <= i < j < |s| ==> s[i] != s[j]
  }

  /** Position of the first occurrence of `x` in `s`. */
  function FirstIndex<T(==)>(s: seq<T>, x: T): (i: nat)
    requires x in s
    ensures i < |s| && s[i] == x
    ensures x !in s[..i]
  {
    var p := s[..|s| - 1];
    assert s == p + [s[|s| - 1]];
    if x in p then
      var i := FirstIndex(p, x);
      assert s[..i] == p[..i];
      i
    else
      |s| - 1
  }

  /** The distinct elements of `s` in order of first occurrence: the order of
      `Object.keys` of an object whose (non-numeric) keys were added while
      scanning `s` from the left. */
  function Keys<T(==)>(s: seq<T>): (k: seq<T>)
    ensures forall i :: 0 <= i < |k| ==> k[i] in s
    ensures forall i :: 0 <= i < |s| ==> s[i] in k
    ensures Distinct(k)
  {
    if |s| == 0 then []
    else
      var p := s[..|s| - 1];
      assert s == p + [s[|s| - 1]];
      var k := Keys(p);
      if s[|s| - 1] in k then k else k + [s[|s| - 1]]
  }

  /** The keys are listed in strictly increasing order of first occurrence. */
  lemma {:induction false} KeysInFirstOccurrenceOrder<T>(s: seq<T>)
    ensures forall i, j :: 0 <= i < j < |Keys(s)| ==>
              FirstIndex(s, Keys(s)[i]) < FirstIndex(s, Keys(s)[j])
  {
    if |s| > 0 {
      var p := s[..|s| - 1];
      assert s == p + [s[|s| - 1]];
      KeysInFirstOccurrenceOrder(p);
      var k := Keys(s);
      var kp := Keys(p);
      forall i, j | 0 <= i < j < |k|
        ensures FirstIndex(s, k[i]) < FirstIndex(s, k[j])
      {
        assert k[i] == kp[i];
        assert k[i] in p;
        assert FirstIndex(s, k[i]) == FirstIndex(p, k[i]);
        if j < |kp| {
          assert k[j] == kp[j];
          assert FirstIndex(s, k[j]) == FirstIndex(p, k[j]);
        } else {
          assert k[j] == s[|s| - 1] && k[j] !in p;
          assert FirstIndex(s, k[j]) == |s| - 1;
        }
      }
    }
  }

  /** `rest.reduce((a, b) => counts[a] > counts[b] ? a : b, acc)` where `counts`
      holds the occurrence counts of `s`: the accumulator survives only while its
      count is STRICTLY greater, so a tie goes to the later key. */
  function ReduceKeys<T(==)>(s: seq<T>, acc: T, rest: seq<T>): (r: T)
    ensures r == acc || r in rest
    ensures Count(s, acc) <= Count(s, r)
    ensures forall j :: 0 <= j < |rest| ==> Count(s, rest[j]) <= Count(s, r)
    decreases |rest|
  {
    if |rest| == 0 then acc
    else
      var r := ReduceKeys(s, if Count(s, acc) > Count(s, rest[0]) then acc else rest[0], rest[1..]);
      assert forall j :: 1 <= j < |rest| ==> rest[j] == rest[1..][j - 1];
      r
  }

  /** Ties go to the later key: any key of `rest` whose count equals the
      result's is the result itself or comes before it. */
  lemma {:induction false} ReduceKeysKeepsLatestTie<T>(s: seq<T>, acc: T, rest: seq<T>, j: nat)
    requires j < |rest| && Count(s, rest[j]) == Count(s, ReduceKeys(s, acc, rest))
    ensures ReduceKeys(s, acc, rest) in rest[j..]
    decreases |rest|
  {
    var r := ReduceKeys(s, acc, rest);
    var next := if Count(s, acc) > Count(s, rest[0]) then acc else rest[0];
    assert r == ReduceKeys(s, next, rest[1..]);
    if j == 0 {
      if r != rest[0] {
        assert r in rest[1..];
      }
    } else {
      assert rest[1..][j - 1] == rest[j];
      ReduceKeysKeepsLatestTie(s, next, rest[1..], j - 1);
      assert rest[1..][j - 1..] == rest[j..];
    }
  }

  /** `getMostCommon`: count every element, then reduce over the keys in insertion
      order. JavaScript's `reduce` without an initial value throws on an empty
      array, so the caller must pass a non-empty sequence. */
  function MostCommon<T(==)>(s: seq<T>): (r: T)
    requires |s| > 0
    ensures r in s
    ensures forall i :: 0 <= i < |s| ==> Count(s, s[i]) <= Count(s, r)
  {
    var k := Keys(s);
    assert s[0] in k;
    var r := ReduceKeys(s, k[0], k[1..]);
    assert forall i :: 0 <= i < |s| ==> Count(s, s[i]) <= Count(s, r) by {
      forall i | 0 <= i < |s|
        ensures Count(s, s[i]) <= Count(s, r)
      {
        var j :| 0 <= j < |k| && k[j] == s[i];
        if j > 0 {
          assert k[1..][j - 1] == k[j];
        }
      }
    }
    r
  }

  /** Independent description of the vote: `r` has the highest count, and among
      the elements sharing that count it is the one whose first occurrence is latest. */
  ghost predicate IsLatestMode<T>(s: seq<T>, r: T)
  {
    && r in s
    && (forall i :: 0 <= i < |s| ==> Count(s, s[i]) <= Count(s, r))
    && (forall i :: 0 <= i < |s| && Count(s, s[i]) == Count(s, r) ==> FirstIndex(s, s[i]) <= FirstIndex(s, r))
  }

  lemma LatestModeUnique<T>(s: seq<T>, r1: T, r2: T)
    requires IsLatestMode(s, r1) && IsLatestMode(s, r2)
    ensures r1 == r2
  {
    assert FirstIndex(s, r1) == FirstIndex(s, r2);
  }

  /** A key tying with the reduction's result never comes after it. */
  lemma TieComesFirst<T>(s: seq<T>, k: seq<T>, m: nat, j: nat)
    requires |k| > 0 && Distinct(k)
    requires m < |k| && k[m] == ReduceKeys(s, k[0], k[1..])
    requires j < |k| && Count(s, k[j]) == Count(s, k[m])
    ensures j <= m
  {
    var rest := k[1..];
    if j > 0 {
      assert rest[j - 1] == k[j];
      ReduceKeysKeepsLatestTie(s, k[0], rest, j - 1);
      assert k[m] in rest[j - 1..];
      var t :| 0 <= t < |rest[j - 1..]| && rest[j - 1..][t] == k[m];
      assert k[j + t] == k[m];
    }
  }

  lemma MostCommonIsLatestMode<T>(s: seq<T>)
    requires |s| > 0
    ensures IsLatestMode(s, MostCommon(s))
  {
    forall i | 0 <= i < |s| && Count(s, s[i]) == Count(s, MostCommon(s))
      ensures FirstIndex(s, s[i]) <= FirstIndex(s, MostCommon(s))
    {
      TieFirstOccursEarlier(s, i);
    }
  }

  lemma TieFirstOccursEarlier<T>(s: seq<T>, i: nat)
    requires i < |s| && Count(s, s[i]) == Count(s, MostCommon(s))
    ensures FirstIndex(s, s[i]) <= FirstIndex(s, MostCommon(s))
  {
    var k := Keys(s);
    assert s[0] in k;
    var r := MostCommon(s);
    assert r == ReduceKeys(s, k[0], k[1..]);
    assert r in s;
    var m :| 0 <= m < |k| && k[m] == r;
    var j :| 0 <= j < |k| && k[j] == s[i];
    TieComesFirst(s, k, m, j);
    if j < m {
      KeysInFirstOccurrenceOrder(s);
    }
  }

  /** `getMostCommon` returns exactly the latest-first-occurring mode. */
  lemma MostCommonCharacterization<T>(s: seq<T>, r: T)
    requires |s| > 0
    ensures MostCommon(s) == r <==> IsLatestMode(s, r)
  {
    MostCommonIsLatestMode(s);
    if IsLatestMode(s, r) {
      LatestModeUnique(s, r, MostCommon(s));
    }
  }

  /** An element holding a strict majority is the unique element with the highest
      count, so the vote returns it whatever the tie rule. */
  lemma MajorityIsMostCommon<T>(s: seq<T>, x: T)
    requires 2 * Count(s, x) > |s|
    ensures |s| > 0 && MostCommon(s) == x
  {
    CountPositive(s, x);
    var r := MostCommon(s);
    if r != x {
      CountTwo(s, x, r);
    }
  }

  /** No two neighbouring elements are equal. */
  predicate NoAdjacentRepeat<T(==)>(s: seq<T>)
  {
    forall i :: 0 < i < |s| ==> s[i - 1] != s[i]
  }

  /** Without neighbouring repeats, a value fills at most every other position. */
  lemma {:induction false} CountWithoutAdjacentRepeat<T>(s: seq<T>, x: T)
    requires NoAdjacentRepeat(s)
    ensures 2 * Count(s, x) <= |s| + 1
  {
    if |s| > 0 {
      var p := s[..|s| - 1];
      assert NoAdjacentRepeat(p);
      if |s| > 1 && s[|s| - 1] == x {
        var q := p[..|p| - 1];
        assert NoAdjacentRepeat(q);
        assert p[|p| - 1] != x;
        assert Count(p, x) == Count(q, x);
        CountWithoutAdjacentRepeat(q, x);
      } else {
        CountWithoutAdjacentRepeat(p, x);
      }
    }
  }

  lemma NoAdjacentRepeatSuffix<T>(s: seq<T>, k: nat)
    requires NoAdjacentRepeat(s) && k <= |s|
    ensures NoAdjacentRepeat(s[k..])
  {
    forall i | 0 < i < |s[k..]|
      ensures s[k..][i - 1] != s[k..][i]
    {
      assert s[k..][i - 1] == s[k + i - 1] && s[k..][i] == s[k + i];
    }
  }

  lemma NoAdjacentRepeatPrefix<T>(s: seq<T>, k: nat)
    requires NoAdjacentRepeat(s) && k <= |s|
    ensures NoAdjacentRepeat(s[..k])
  {
    forall i | 0 < i < |s[..k]|
      ensures s[..k][i - 1] != s[..k][i]
    {
      assert s[..k][i - 1] == s[i - 1] && s[..k][i] == s[i];
    }
  }

  lemma PrefixSnoc<T>(s: seq<T>, i: nat)
    requires i < |s|
    ensures s[..i + 1] == s[..i] + [s[i]]
  {
  }

}
