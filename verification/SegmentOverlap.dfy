/** The exclusive-segment checks of the end-to-end smoke stage
    (crates/diar-core/src/provision/verify.rs, stage 4). Times are reals. */
module SegmentOverlap {
  import opened Wrappers
  import opened Sorting

  datatype Segment = Segment(start: real, end: real)

  const EPSILON: real := 0.000001
  const SPEECH_SLACK: real := 0.001

  predicate StartsBefore(a: Segment, b: Segment) {
    a.start <= b.start
  }

  function SortByStart(s: seq<Segment>): seq<Segment> {
    Sort(StartsBefore, s)
  }

  /** The sum of the segments' lengths. */
  function Speech(s: seq<Segment>): real {
    if s == [] then 0.0 else Speech(s[..|s| - 1]) + (s[|s| - 1].end - s[|s| - 1].start)
  }

  datatype CheckError = Overlapping(first: Segment, second: Segment) | TooMuchSpeech

  // ---------------------------------------------------------------- what acceptance means

  /** How long both segments speak. */
  function Overlap(a: Segment, b: Segment): real {
    (if a.end <= b.end then a.end else b.end) - (if a.start >= b.start then a.start else b.start)
  }

  /** The one that starts first (`a`, in a tie) ends at most epsilon after the other starts. */
  predicate Clear(a: Segment, b: Segment) {
    if a.start <= b.start then a.end - EPSILON <= b.start else b.end - EPSILON <= a.start
  }

  /** Every pair is clear, in the order of the list. */
  ghost predicate PairwiseClear(s: seq<Segment>) {
    forall i, j :: 0 <= i < j < |s| ==> Clear(s[i], s[j])
  }

  /** The check on neighbours. */
  ghost predicate WindowsClear(s: seq<Segment>) {
    forall k :: 0 <= k < |s| - 1 ==> s[k].end - EPSILON <= s[k + 1].start
  }

  lemma ByStart()
    ensures Total(StartsBefore) && Transitive(StartsBefore)
  {
  }

  ghost predicate ClearOfAll(x: Segment, s: seq<Segment>) {
    forall k :: 0 <= k < |s| ==> Clear(x, s[k])
  }

  lemma {:induction false} ClearOfCons(y: Segment, x: Segment, s: seq<Segment>)
    ensures ClearOfAll(y, [x] + s) <==> Clear(y, x) && ClearOfAll(y, s)
  {
    var r := [x] + s;
    if ClearOfAll(y, r) {
      assert Clear(y, r[0]);
      forall k | 0 <= k < |s| ensures Clear(y, s[k]) {
        assert Clear(y, r[k + 1]);
      }
    }
  }

  lemma {:induction false} PairwiseCons(x: Segment, s: seq<Segment>)
    ensures PairwiseClear([x] + s) <==> ClearOfAll(x, s) && PairwiseClear(s)
  {
    var r := [x] + s;
    if PairwiseClear(r) {
      forall k | 0 <= k < |s| ensures Clear(x, s[k]) {
        assert Clear(r[0], r[k + 1]);
      }
      forall i, j | 0 <= i < j < |s| ensures Clear(s[i], s[j]) {
        assert Clear(r[i + 1], r[j + 1]);
      }
    }
  }

  /** `y` is clear of a list with `x` inserted when it is clear of `x` and of the list. */
  lemma {:induction false} ClearOfInserted(y: Segment, x: Segment, s: seq<Segment>)
    ensures ClearOfAll(y, Insert(StartsBefore, x, s)) <==> Clear(y, x) && ClearOfAll(y, s)
  {
    if s == [] || StartsBefore(x, s[0]) {
      ClearOfCons(y, x, s);
    } else {
      ClearOfInserted(y, x, s[1..]);
      ClearOfCons(y, s[0], Insert(StartsBefore, x, s[1..]));
      ClearOfCons(y, s[0], s[1..]);
      assert s == [s[0]] + s[1..];
    }
  }

  /** Moving a segment behind ones that start strictly earlier does not change what is clear. */
  lemma {:induction false} InsertKeepsClear(x: Segment, s: seq<Segment>)
    ensures PairwiseClear(Insert(StartsBefore, x, s)) <==> ClearOfAll(x, s) && PairwiseClear(s)
  {
    if s == [] || StartsBefore(x, s[0]) {
      PairwiseCons(x, s);
    } else {
      var tail := s[1..];
      InsertKeepsClear(x, tail);
      PairwiseCons(s[0], Insert(StartsBefore, x, tail));
      ClearOfInserted(s[0], x, tail);
      PairwiseCons(s[0], tail);
      ClearOfCons(x, s[0], tail);
      assert s == [s[0]] + tail;
    }
  }

  lemma {:induction false} SortKeepsClear(s: seq<Segment>)
    ensures PairwiseClear(SortByStart(s)) <==> PairwiseClear(s)
  {
    if s != [] {
      SortKeepsClear(s[1..]);
      var tail := SortByStart(s[1..]);
      InsertKeepsClear(s[0], tail);
      ClearOfSorted(s[0], s[1..]);
      PairwiseCons(s[0], s[1..]);
      assert s == [s[0]] + s[1..];
    }
  }

  lemma {:induction false} ClearOfSorted(y: Segment, s: seq<Segment>)
    ensures ClearOfAll(y, SortByStart(s)) <==> ClearOfAll(y, s)
  {
    if s != [] {
      ClearOfSorted(y, s[1..]);
      ClearOfInserted(y, s[0], SortByStart(s[1..]));
      ClearOfCons(y, s[0], s[1..]);
      assert s == [s[0]] + s[1..];
    }
  }

  /** On a sorted list the neighbours decide about every pair. */
  lemma {:induction false} NeighboursDecide(s: seq<Segment>)
    requires Sorted(StartsBefore, s)
    ensures WindowsClear(s) <==> PairwiseClear(s)
  {
    if WindowsClear(s) {
      forall i, j | 0 <= i < j < |s| ensures Clear(s[i], s[j]) {
        assert s[i].end - EPSILON <= s[i + 1].start;
        if i + 1 < j {
          assert StartsBefore(s[i + 1], s[j]);
        }
        assert StartsBefore(s[i], s[j]);
      }
    }
    if PairwiseClear(s) {
      forall k | 0 <= k < |s| - 1 ensures s[k].end - EPSILON <= s[k + 1].start {
        assert Clear(s[k], s[k + 1]) && StartsBefore(s[k], s[k + 1]);
      }
    }
  }

  /** MAIN RESULT. For every list in any order: the sorted neighbour check passes exactly when, in
      each pair, the one that starts first ends at most epsilon after the other starts. */
  lemma AcceptsExactlyWhen(s: seq<Segment>)
    ensures WindowsClear(SortByStart(s)) <==> PairwiseClear(s)
  {
    ByStart();
    SortSorted(StartsBefore, s);
    NeighboursDecide(SortByStart(s));
    SortKeepsClear(s);
  }

  ghost predicate OverlapsAtMostEpsilon(s: seq<Segment>) {
    forall i, j :: 0 <= i < j < |s| ==> Overlap(s[i], s[j]) <= EPSILON
  }

  predicate Short(a: Segment) {
    a.end - a.start <= EPSILON
  }

  /** The one that starts later (`b`, in a tie) is short and starts more than epsilon before the
      other ends. */
  predicate HoldsShort(a: Segment, b: Segment) {
    if a.start <= b.start then Short(b) && b.start < a.end - EPSILON else Short(a) && a.start < b.end - EPSILON
  }

  ghost predicate NoneHoldsShort(s: seq<Segment>) {
    forall i, j :: 0 <= i < j < |s| ==> !HoldsShort(s[i], s[j])
  }

  /** Acceptance bounds every overlap by epsilon; the false alarms are exactly the lists in which a
      segment holds a short one. */
  lemma AcceptanceBoundsOverlapExactlyWhen(s: seq<Segment>)
    ensures PairwiseClear(s) <==> OverlapsAtMostEpsilon(s) && NoneHoldsShort(s)
  {
    forall i, j | 0 <= i < j < |s|
      ensures Clear(s[i], s[j]) <==> Overlap(s[i], s[j]) <= EPSILON && !HoldsShort(s[i], s[j])
    {
    }
  }

  /** Such a false alarm: the second segment lasts a tenth of epsilon. */
  lemma ShortSegmentIsRejected() returns (s: seq<Segment>)
    ensures OverlapsAtMostEpsilon(s) && !PairwiseClear(s)
  {
    s := [Segment(0.0, 10.0), Segment(5.0, 5.0000001)];
    assert !Clear(s[0], s[1]);
  }

  // ---------------------------------------------------------------- total speech

  lemma {:induction false} SpeechCons(x: Segment, s: seq<Segment>)
    ensures Speech([]) == 0.0 && Speech([x] + s) == (x.end - x.start) + Speech(s)
  {
    var r := [x] + s;
    if s == [] {
      assert r[..0] == [];
    } else {
      SpeechCons(x, s[..|s| - 1]);
      assert r[..|r| - 1] == [x] + s[..|s| - 1];
    }
  }

  lemma {:induction false} SpeechInserted(x: Segment, s: seq<Segment>)
    ensures Speech(Insert(StartsBefore, x, s)) == (x.end - x.start) + Speech(s)
  {
    if s == [] || StartsBefore(x, s[0]) {
      SpeechCons(x, s);
    } else {
      SpeechInserted(x, s[1..]);
      SpeechCons(s[0], Insert(StartsBefore, x, s[1..]));
      SpeechCons(s[0], s[1..]);
      assert s == [s[0]] + s[1..];
    }
  }

  lemma {:induction false} SpeechSorted(s: seq<Segment>)
    ensures Speech(SortByStart(s)) == Speech(s)
  {
    if s != [] {
      SpeechSorted(s[1..]);
      SpeechInserted(s[0], SortByStart(s[1..]));
      SpeechCons(s[0], s[1..]);
      assert s == [s[0]] + s[1..];
    }
  }

  lemma {:induction false} SpeechOfWindows(s: seq<Segment>)
    requires s != [] && WindowsClear(s)
    ensures Speech(s) <= s[|s| - 1].end - s[0].start + (|s| - 1) as real * EPSILON
  {
    var k := |s| - 1;
    if k == 0 {
      assert s[..0] == [];
    } else {
      var front := s[..k];
      assert WindowsClear(front) by {
        forall i | 0 <= i < |front| - 1 ensures front[i].end - EPSILON <= front[i + 1].start {
          assert s[i].end - EPSILON <= s[i + 1].start;
        }
      }
      SpeechOfWindows(front);
      assert s[k - 1].end - EPSILON <= s[k - 1 + 1].start;
    }
  }

  /** Acceptance bounds the total speech by the covered span plus epsilon per neighbour. */
  lemma SpeechIsBounded(s: seq<Segment>, lo: real, hi: real)
    requires s != [] && PairwiseClear(s)
    requires forall i :: 0 <= i < |s| ==> lo <= s[i].start && s[i].end <= hi
    ensures Speech(s) <= hi - lo + (|s| - 1) as real * EPSILON
  {
    var sorted := SortByStart(s);
    AcceptsExactlyWhen(s);
    SpeechSorted(s);
    SpeechOfWindows(sorted);
    SortMultiset(StartsBefore, s);
    assert sorted[0] in multiset(s) && sorted[|s| - 1] in multiset(s);
  }

  /** So for up to 1001 segments inside the clip the speech check never fires after it. */
  lemma SpeechCheckIsRedundant(s: seq<Segment>, duration: real)
    requires PairwiseClear(s) && 1 <= |s| <= 1001
    requires forall i :: 0 <= i < |s| ==> 0.0 <= s[i].start && s[i].end <= duration
    ensures Speech(s) <= duration + SPEECH_SLACK
  {
    SpeechIsBounded(s, 0.0, duration);
    assert (|s| - 1) as real <= 1000.0;
  }

  /** `n` segments, one a second, each a tolerance longer than that. */
  function Stairs(n: nat): (s: seq<Segment>)
    ensures |s| == n
  {
    if n == 0 then [] else Stairs(n - 1) + [Segment((n - 1) as real, n as real + EPSILON)]
  }

  lemma {:induction false} StairsAre(n: nat)
    ensures forall i :: 0 <= i < n ==> Stairs(n)[i] == Segment(i as real, (i + 1) as real + EPSILON)
    ensures Speech(Stairs(n)) == n as real + n as real * EPSILON
  {
    if n > 0 {
      StairsAre(n - 1);
      assert Stairs(n)[..n - 1] == Stairs(n - 1);
    }
  }

  ghost predicate InClip(s: seq<Segment>, duration: real) {
    duration >= 0.0 && forall i :: 0 <= i < |s| ==> 0.0 <= s[i].start && s[i].end <= duration
  }

  ghost predicate NeverTooMuch(n: nat) {
    forall s: seq<Segment>, duration: real ::
      |s| == n && PairwiseClear(s) && InClip(s, duration) ==> Speech(s) <= duration + SPEECH_SLACK
  }

  /** And from 1002 on it may: the speech check after the neighbour check is redundant for exactly
      the lists of up to 1001 segments. */
  lemma SpeechCheckIsRedundantExactlyWhen(n: nat)
    ensures NeverTooMuch(n) <==> n <= 1001
  {
    if n <= 1001 {
      forall s: seq<Segment>, duration: real | |s| == n && PairwiseClear(s) && InClip(s, duration)
        ensures Speech(s) <= duration + SPEECH_SLACK
      {
        if n > 0 {
          SpeechCheckIsRedundant(s, duration);
        }
      }
    } else {
      var s, duration := Stairs(n), n as real + EPSILON;
      StairsAre(n);
      assert PairwiseClear(s) && InClip(s, duration);
      assert (n - 1) as real >= 1001.0;
    }
  }

  // ---------------------------------------------------------------- the check

  /** The first pair of neighbours that overlaps, if any. */
  method FirstOverlap(sorted: seq<Segment>) returns (at: Option<nat>)
    ensures at.None? <==> WindowsClear(sorted)
    ensures at.Some? ==> at.value + 1 < |sorted| && sorted[at.value + 1].start < sorted[at.value].end - EPSILON
  {
    var k := 0;
    while k + 1 < |sorted|
      invariant k >= 0
      invariant forall i :: 0 <= i < k && i < |sorted| - 1 ==> sorted[i].end - EPSILON <= sorted[i + 1].start
    {
      if sorted[k + 1].start < sorted[k].end - EPSILON { return Some(k); }
      k := k + 1;
    }
    return None;
  }

  method TotalSpeech(segments: seq<Segment>) returns (speech: real)
    ensures speech == Speech(segments)
  {
    speech := 0.0;
    for i := 0 to |segments|
      invariant speech == Speech(segments[..i])
    {
      assert segments[..i + 1][..i] == segments[..i];
      speech := speech + (segments[i].end - segments[i].start);
    }
    assert segments[..|segments|] == segments;
  }

  lemma FromSorted(segments: seq<Segment>, k: nat)
    requires k < |segments|
    ensures SortByStart(segments)[k] in segments
  {
    SortMultiset(StartsBefore, segments);
    assert SortByStart(segments)[k] in multiset(segments);
  }

  method CheckExclusive(segments: seq<Segment>, duration: real) returns (r: Option<CheckError>)
    ensures r.None? <==> PairwiseClear(segments) && Speech(segments) <= duration + SPEECH_SLACK
    ensures r == Some(TooMuchSpeech) ==> PairwiseClear(segments)
    ensures r.Some? && r.value.Overlapping? ==>
              && r.value.first in segments && r.value.second in segments
              && r.value.second.start < r.value.first.end - EPSILON
  {
    var sorted := SortByStart(segments);
    AcceptsExactlyWhen(segments);
    SpeechSorted(segments);
    var at := FirstOverlap(sorted);
    if at.Some? {
      FromSorted(segments, at.value);
      FromSorted(segments, at.value + 1);
      return Some(Overlapping(sorted[at.value], sorted[at.value + 1]));
    }
    var speech := TotalSpeech(sorted);
    if speech > duration + SPEECH_SLACK { return Some(TooMuchSpeech); }
    return None;
  }
}
