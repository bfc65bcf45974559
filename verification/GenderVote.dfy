/** Per-speaker gender voting (crates/diar-core/src/gender.rs). Times and confidences are reals;
    the model is a function from a window of samples to its answer. */
module GenderVote {
  import opened Wrappers
  import opened Sorting

  const MAX_WINDOWS_PER_SPEAKER: nat := 5
  const MIN_SAMPLES: nat := 16000

  datatype Segment = Segment(speaker: string, start: real, end: real) {
    function Length(): real { end - start }
  }

  /** Samples `from` up to, not including, `to`. */
  datatype Window = Window(from: nat, to: nat)

  /** `as usize` of a real: negative values saturate at zero. */
  function ToUsize(x: real): nat {
    if x < 0.0 then 0 else x.Floor
  }

  function Min(a: nat, b: nat): nat {
    if a <= b then a else b
  }

  function StartSample(seg: Segment, sampleRate: nat): nat {
    ToUsize(seg.start * sampleRate as real)
  }

  function EndSample(seg: Segment, audioLen: nat, sampleRate: nat): nat {
    Min(ToUsize(seg.end * sampleRate as real), audioLen)
  }

  /** A stretch of samples is dropped if too short and centre-cropped if too long. */
  function Cut(start: nat, end: nat, cap: nat): Option<Window> {
    if end <= start || end - start < MIN_SAMPLES then None
    else if end - start > cap then
      var mid := start + (end - start) / 2;
      Some(Window(mid - cap / 2, mid + cap / 2))
    else Some(Window(start, end))
  }

  /** The window heard of a turn. */
  function WindowOf(seg: Segment, audioLen: nat, sampleRate: nat, cap: nat): Option<Window> {
    Cut(StartSample(seg, sampleRate), EndSample(seg, audioLen, sampleRate), cap)
  }

  predicate LongerFirst(a: Segment, b: Segment) {
    b.Length() <= a.Length()
  }

  function Take<T>(s: seq<T>, n: nat): seq<T> {
    if |s| <= n then s else s[..n]
  }

  function LongestTurns(segs: seq<Segment>): seq<Segment> {
    Take(Sort(LongerFirst, segs), MAX_WINDOWS_PER_SPEAKER)
  }

  function Crop(audioLen: nat, sampleRate: nat, cap: nat): Segment -> Option<Window> {
    seg => WindowOf(seg, audioLen, sampleRate, cap)
  }

  /** The windows heard of these turns. */
  function Windows(segs: seq<Segment>, crop: Segment -> Option<Window>): seq<Window> {
    if segs == [] then []
    else
      Windows(segs[..|segs| - 1], crop)
      + match crop(segs[|segs| - 1]) case None => [] case Some(w) => [w]
  }

  // ---------------------------------------------------------------- the vote

  /** Class 0 is female, class 1 is male. */
  datatype Vote = Vote(male: bool, confidence: real)

  type Model = Window -> Option<Vote>

  /** The answers for the windows the model did not fail on. */
  function Votes(windows: seq<Window>, model: Model): seq<Vote> {
    if windows == [] then []
    else
      Votes(windows[..|windows| - 1], model)
      + match model(windows[|windows| - 1]) case None => [] case Some(v) => [v]
  }

  function Score(votes: seq<Vote>, male: bool): real {
    if votes == [] then 0.0
    else
      Score(votes[..|votes| - 1], male)
      + if votes[|votes| - 1].male == male then votes[|votes| - 1].confidence else 0.0
  }

  datatype Verdict = Verdict(male: bool, confidence: real, windows: nat)

  /** `max_by` returns the last maximum, so a tie goes to class 1. */
  function Decide(votes: seq<Vote>): Option<Verdict> {
    if votes == [] then None
    else
      var male := Score(votes, true) >= Score(votes, false);
      Some(Verdict(male, Score(votes, male) / |votes| as real, |votes|))
  }

  function SpeakerVerdict(turns: seq<Segment>, audioLen: nat, sampleRate: nat, cap: nat, model: Model): Option<Verdict> {
    Decide(Votes(Windows(LongestTurns(turns), Crop(audioLen, sampleRate, cap)), model))
  }

  /** The turns of one speaker, in order. */
  function TurnsOf(segs: seq<Segment>, speaker: string): seq<Segment> {
    if segs == [] then []
    else
      TurnsOf(segs[..|segs| - 1], speaker)
      + if segs[|segs| - 1].speaker == speaker then [segs[|segs| - 1]] else []
  }

  // ---------------------------------------------------------------- what is heard

  /** The crop is centred: as much is dropped in front as behind, up to one sample. */
  lemma CutIsCentred(start: nat, end: nat, cap: nat)
    requires Cut(start, end, cap).Some?
    ensures var w := Cut(start, end, cap).value;
            && start <= w.from <= w.to <= end
            && w.to - w.from <= cap
            && 0 <= (end - w.to) - (w.from - start) <= 1
            && (w.to - w.from >= MIN_SAMPLES || w.to - w.from == cap / 2 * 2)
  {
  }

  /** Every stretch of the minimum length is heard: whole up to the cap, and beyond it for all of the
      cap but one sample at most. */
  lemma CutExactlyWhen(start: nat, end: nat, cap: nat)
    ensures Cut(start, end, cap).Some? <==> end - start >= 16000
    ensures Cut(start, end, cap).Some? ==>
              var w := Cut(start, end, cap).value;
              if end - start <= cap then w == Window(start, end) else w.to - w.from == cap / 2 * 2
  {
  }

  /** A time in seconds is truncated to a sample; before zero it is zero, past the end the end. */
  lemma SamplesOf(seg: Segment, audioLen: nat, sampleRate: nat)
    ensures var t, k := seg.start * sampleRate as real, StartSample(seg, sampleRate);
            if t < 0.0 then k == 0 else k as real <= t < k as real + 1.0
    ensures var t, k := seg.end * sampleRate as real, EndSample(seg, audioLen, sampleRate);
            && (t < 0.0 ==> k == 0)
            && (0.0 <= t < audioLen as real ==> k as real <= t < k as real + 1.0)
            && (t >= audioLen as real ==> k == audioLen)
  {
  }

  /** A window lies in the audio and in its own turn and is no longer than the cap. */
  lemma WindowIsInside(seg: Segment, audioLen: nat, sampleRate: nat, cap: nat)
    requires WindowOf(seg, audioLen, sampleRate, cap).Some?
    ensures var w := WindowOf(seg, audioLen, sampleRate, cap).value;
            && w.from <= w.to <= audioLen
            && StartSample(seg, sampleRate) <= w.from
            && w.to <= EndSample(seg, audioLen, sampleRate) <= ToUsize(seg.end * sampleRate as real)
            && w.to - w.from <= cap
  {
    CutIsCentred(StartSample(seg, sampleRate), EndSample(seg, audioLen, sampleRate), cap);
    MinIsLower(ToUsize(seg.end * sampleRate as real), audioLen);
  }

  lemma MinIsLower(a: nat, b: nat)
    ensures Min(a, b) <= a && Min(a, b) <= b
  {
  }

  lemma TopFive(segs: seq<Segment>) returns (rest: seq<Segment>)
    ensures multiset(LongestTurns(segs)) + multiset(rest) == multiset(segs)
    ensures |LongestTurns(segs)| <= 5
    ensures rest != [] ==> |LongestTurns(segs)| == 5
    ensures forall a <- LongestTurns(segs), b <- rest :: b.Length() <= a.Length()
  {
    var sorted, top := Sort(LongerFirst, segs), LongestTurns(segs);
    SortMultiset(LongerFirst, segs);
    SortSorted(LongerFirst, segs);
    rest := sorted[|top|..];
    assert sorted == top + rest;
    forall a <- top, b <- rest
      ensures b.Length() <= a.Length()
    {
      var i :| 0 <= i < |top| && top[i] == a;
      var j :| 0 <= j < |rest| && rest[j] == b;
      assert LongerFirst(sorted[i], sorted[|top| + j]);
    }
  }

  lemma {:induction false} WindowsComeFromTurns(segs: seq<Segment>, crop: Segment -> Option<Window>)
    ensures |Windows(segs, crop)| <= |segs|
    ensures forall w <- Windows(segs, crop) :: exists s <- segs :: crop(s) == Some(w)
  {
    if segs != [] {
      WindowsComeFromTurns(segs[..|segs| - 1], crop);
      assert segs[|segs| - 1] in segs && forall s <- segs[..|segs| - 1] :: s in segs;
    }
  }

  /** Turn by turn. */
  lemma {:induction false} WindowsAdd(a: seq<Segment>, b: seq<Segment>, crop: Segment -> Option<Window>)
    ensures Windows(a + b, crop) == Windows(a, crop) + Windows(b, crop)
  {
    if b == [] {
      assert a + b == a;
    } else {
      WindowsAdd(a, b[..|b| - 1], crop);
      assert (a + b)[..|a + b| - 1] == a + b[..|b| - 1];
    }
  }

  lemma {:induction false} VotesAdd(a: seq<Window>, b: seq<Window>, model: Model)
    ensures Votes(a + b, model) == Votes(a, model) + Votes(b, model)
  {
    if b == [] {
      assert a + b == a;
    } else {
      VotesAdd(a, b[..|b| - 1], model);
      assert (a + b)[..|a + b| - 1] == a + b[..|b| - 1];
    }
  }

  /** A single turn, window and vote. */
  lemma OneOfEach(seg: Segment, crop: Segment -> Option<Window>, w: Window, model: Model, v: Vote, male: bool)
    ensures Windows([seg], crop) == match crop(seg) case None => [] case Some(x) => [x]
    ensures Votes([w], model) == match model(w) case None => [] case Some(x) => [x]
    ensures Score([v], male) == if v.male == male then v.confidence else 0.0
  {
    assert [seg][..0] == [] && [w][..0] == [] && [v][..0] == [];
  }

  /** The score of a class is additive over the votes. */
  lemma {:induction false} ScoreAdds(a: seq<Vote>, b: seq<Vote>, male: bool)
    ensures Score(a + b, male) == Score(a, male) + Score(b, male)
  {
    if b == [] {
      assert a + b == a;
    } else {
      ScoreAdds(a, b[..|b| - 1], male);
      assert (a + b)[..|a + b| - 1] == a + b[..|b| - 1];
    }
  }

  lemma {:induction false} AnswersExactlyWhen(windows: seq<Window>, model: Model)
    ensures Votes(windows, model) != [] <==> exists w <- windows :: model(w).Some?
  {
    if windows != [] {
      var rest, last := windows[..|windows| - 1], windows[|windows| - 1];
      assert windows == rest + [last];
      AnswersExactlyWhen(rest, model);
    }
  }

  lemma {:induction false} HeardExactlyWhen(segs: seq<Segment>, crop: Segment -> Option<Window>, w: Window)
    ensures w in Windows(segs, crop) <==> exists seg <- segs :: crop(seg) == Some(w)
  {
    if segs != [] {
      var rest, last := segs[..|segs| - 1], segs[|segs| - 1];
      assert segs == rest + [last];
      HeardExactlyWhen(rest, crop, w);
    }
  }

  /** The turn is long enough, in samples of the audio, and the model answers its window. */
  ghost predicate IsHeard(seg: Segment, audioLen: nat, sampleRate: nat, cap: nat, model: Model) {
    var from, to := StartSample(seg, sampleRate), EndSample(seg, audioLen, sampleRate);
    && to > from && to - from >= MIN_SAMPLES
    && exists w: Window :: WindowOf(seg, audioLen, sampleRate, cap) == Some(w) && model(w).Some?
  }

  /** MAIN RESULT. A speaker gets a verdict exactly when one of the speaker's five longest turns is
      long enough and the model answers its window. */
  lemma JudgedExactlyWhen(turns: seq<Segment>, audioLen: nat, sampleRate: nat, cap: nat, model: Model)
    ensures SpeakerVerdict(turns, audioLen, sampleRate, cap, model).Some? <==>
            exists seg <- LongestTurns(turns) :: IsHeard(seg, audioLen, sampleRate, cap, model)
  {
    var top, crop := LongestTurns(turns), Crop(audioLen, sampleRate, cap);
    var windows := Windows(top, crop);
    AnswersExactlyWhen(windows, model);
    if w :| w in windows && model(w).Some? {
      HeardExactlyWhen(top, crop, w);
      var seg :| seg in top && crop(seg) == Some(w);
      CutExactlyWhen(StartSample(seg, sampleRate), EndSample(seg, audioLen, sampleRate), cap);
      assert IsHeard(seg, audioLen, sampleRate, cap, model);
    }
    if seg :| seg in top && IsHeard(seg, audioLen, sampleRate, cap, model) {
      var w: Window :| WindowOf(seg, audioLen, sampleRate, cap) == Some(w) && model(w).Some?;
      assert crop(seg) == Some(w);
      HeardExactlyWhen(top, crop, w);
    }
  }

  /** Turns of equal length are heard in their own order. */
  lemma LongestTurnsAreStable(segs: seq<Segment>, x: Segment)
    ensures LongestTurns(segs) <= Sort(LongerFirst, segs)
    ensures Ties(LongerFirst, x, Sort(LongerFirst, segs)) == Ties(LongerFirst, x, segs)
  {
    SortIsStable(LongerFirst, x, segs);
  }

  // ---------------------------------------------------------------- what a verdict means

  lemma {:induction false} VotesAtMost(windows: seq<Window>, model: Model)
    ensures |Votes(windows, model)| <= |windows|
  {
    if windows != [] {
      VotesAtMost(windows[..|windows| - 1], model);
    }
  }

  lemma {:induction false} ScoresSplit(votes: seq<Vote>)
    requires forall v <- votes :: 0.5 <= v.confidence <= 1.0
    ensures 0.5 * |votes| as real <= Score(votes, true) + Score(votes, false) <= |votes| as real
    ensures Score(votes, true) >= 0.0 && Score(votes, false) >= 0.0
  {
    if votes != [] {
      assert votes[|votes| - 1] in votes;
      ScoresSplit(votes[..|votes| - 1]);
    }
  }

  lemma QuotientBounds(s: real, n: nat)
    requires n > 0 && 0.25 * n as real <= s <= n as real
    ensures 0.25 <= s / n as real <= 1.0 && s / n as real * n as real == s
  {
    var q := s / n as real;
    assert q * n as real == s;
  }

  /** What a decision says of the votes it rests on. */
  ghost predicate IsSound(v: Verdict, votes: seq<Vote>) {
    && v.windows == |votes| >= 1
    && Score(votes, v.male) >= Score(votes, !v.male)
    && (Score(votes, true) == Score(votes, false) ==> v.male)
    && v.confidence * v.windows as real == Score(votes, v.male)
    && 0.25 <= v.confidence <= 1.0
  }

  lemma DecisionIsSound(votes: seq<Vote>)
    requires votes != [] && forall v <- votes :: 0.5 <= v.confidence <= 1.0
    ensures IsSound(Decide(votes).value, votes)
  {
    ScoresSplit(votes);
    QuotientBounds(Score(votes, Score(votes, true) >= Score(votes, false)), |votes|);
  }

  /** A verdict rests on one to five windows, names a class of greatest summed
      confidence, the last one in a tie, and carries its mean share; with per-window confidences in
      [1/2, 1] that lies in [1/4, 1]. */
  lemma VerdictIsSound(turns: seq<Segment>, audioLen: nat, sampleRate: nat, cap: nat, model: Model)
    requires SpeakerVerdict(turns, audioLen, sampleRate, cap, model).Some?
    requires forall w: Window :: model(w).Some? ==> 0.5 <= model(w).value.confidence <= 1.0
    ensures var votes := Votes(Windows(LongestTurns(turns), Crop(audioLen, sampleRate, cap)), model);
            var v := SpeakerVerdict(turns, audioLen, sampleRate, cap, model).value;
            IsSound(v, votes) && v.windows <= MAX_WINDOWS_PER_SPEAKER
  {
    var windows := Windows(LongestTurns(turns), Crop(audioLen, sampleRate, cap));
    WindowsComeFromTurns(LongestTurns(turns), Crop(audioLen, sampleRate, cap));
    VotesAtMost(windows, model);
    VotesComeFromModel(windows, model);
    DecisionIsSound(Votes(windows, model));
  }

  lemma {:induction false} VotesComeFromModel(windows: seq<Window>, model: Model)
    ensures forall v <- Votes(windows, model) :: exists w <- windows :: model(w) == Some(v)
  {
    if windows != [] {
      VotesComeFromModel(windows[..|windows| - 1], model);
      assert windows[|windows| - 1] in windows;
    }
  }

  lemma {:induction false} ScoreOfUnanimous(votes: seq<Vote>, male: bool)
    requires forall v <- votes :: v.male == male && 0.5 <= v.confidence
    ensures Score(votes, !male) == 0.0 && Score(votes, male) >= 0.5 * |votes| as real
  {
    if votes != [] {
      assert votes[|votes| - 1] in votes;
      ScoreOfUnanimous(votes[..|votes| - 1], male);
    }
  }

  /** When every window agrees the verdict agrees, with confidence at least one half. */
  lemma UnanimousVerdict(votes: seq<Vote>, male: bool)
    requires votes != [] && forall v <- votes :: v.male == male && 0.5 <= v.confidence
    ensures Decide(votes).value.male == male && Decide(votes).value.confidence >= 0.5
  {
    ScoreOfUnanimous(votes, male);
    AtLeastHalf(Score(votes, male), |votes|);
  }

  lemma AtLeastHalf(s: real, n: nat)
    requires n > 0 && s >= 0.5 * n as real
    ensures s / n as real >= 0.5
  {
    assert (s / n as real) * n as real == s;
  }

  // ---------------------------------------------------------------- window length setting

  const DEFAULT_MAX_SECONDS: nat := 5

  /** `env` is DIAR_GENDER_MAX_SECONDS when it is set and parses. */
  function MaxSamples(env: Option<nat>, sampleRate: nat): nat {
    (match env case Some(v) => if v > 0 then v else DEFAULT_MAX_SECONDS case None => DEFAULT_MAX_SECONDS) * sampleRate
  }

  /** The cap is the set number of seconds; unset, unreadable or zero it is five. */
  lemma CapIs(env: Option<nat>, sampleRate: nat)
    ensures MaxSamples(env, sampleRate) == (if env.None? || env == Some(0) then 5 else env.value) * sampleRate
  {
  }

  lemma CapCoversOneSecond(env: Option<nat>, sampleRate: nat)
    ensures MaxSamples(env, sampleRate) >= sampleRate
  {
    var k := if env.Some? && env.value > 0 then env.value else DEFAULT_MAX_SECONDS;
    assert (k - 1) * sampleRate >= 0;
  }

  /** At 16 kHz and above no setting of the cap makes the crop undercut the minimum. */
  lemma CropKeepsTheMinimum(start: nat, end: nat, sampleRate: nat, env: Option<nat>)
    requires sampleRate >= MIN_SAMPLES && Cut(start, end, MaxSamples(env, sampleRate)).Some?
    ensures var w := Cut(start, end, MaxSamples(env, sampleRate)).value;
            w.to - w.from >= MIN_SAMPLES
  {
    CapCoversOneSecond(env, sampleRate);
    CutOfLongCap(start, end, MaxSamples(env, sampleRate));
  }

  lemma CutOfLongCap(start: nat, end: nat, cap: nat)
    requires cap >= MIN_SAMPLES && Cut(start, end, cap).Some?
    ensures Cut(start, end, cap).value.to - Cut(start, end, cap).value.from >= MIN_SAMPLES
  {
    CutIsCentred(start, end, cap);
  }

  // ---------------------------------------------------------------- the loops

  method TallyVotes(top: seq<Segment>, crop: Segment -> Option<Window>, model: Model)
    returns (female: real, male: real, used: nat)
    ensures var votes := Votes(Windows(top, crop), model);
            used == |votes| && female == Score(votes, false) && male == Score(votes, true)
  {
    female, male, used := 0.0, 0.0, 0;
    ghost var windows: seq<Window>, votes: seq<Vote> := [], [];
    for i := 0 to |top|
      invariant windows == Windows(top[..i], crop) && votes == Votes(windows, model)
      invariant used == |votes| && female == Score(votes, false) && male == Score(votes, true)
    {
      assert top[..i + 1][..i] == top[..i];
      var w := crop(top[i]);
      if w.Some? {
        VotesSnoc(windows, w.value, model);
        windows := windows + [w.value];
        var answer := model(w.value);
        if answer.Some? {
          ScoreSnoc(votes, answer.value);
          votes := votes + [answer.value];
          used := used + 1;
          if answer.value.male {
            male := male + answer.value.confidence;
          } else {
            female := female + answer.value.confidence;
          }
        }
      }
    }
    assert top[..|top|] == top;
  }

  lemma VotesSnoc(windows: seq<Window>, w: Window, model: Model)
    ensures Votes(windows + [w], model)
         == Votes(windows, model) + match model(w) case None => [] case Some(v) => [v]
  {
    assert (windows + [w])[..|windows|] == windows;
  }

  lemma ScoreSnoc(votes: seq<Vote>, v: Vote)
    ensures forall male :: Score(votes + [v], male) == Score(votes, male) + if v.male == male then v.confidence else 0.0
  {
    assert (votes + [v])[..|votes|] == votes;
  }

  method JudgeSpeaker(turns: seq<Segment>, audioLen: nat, sampleRate: nat, cap: nat, model: Model)
    returns (verdict: Option<Verdict>)
    ensures verdict == SpeakerVerdict(turns, audioLen, sampleRate, cap, model)
  {
    var female, male, used := TallyVotes(LongestTurns(turns), Crop(audioLen, sampleRate, cap), model);
    if used == 0 {
      verdict := None;
    } else if male >= female {
      verdict := Some(Verdict(true, male / used as real, used));
    } else {
      verdict := Some(Verdict(false, female / used as real, used));
    }
  }

  method GroupBySpeaker(segs: seq<Segment>) returns (turns: map<string, seq<Segment>>)
    ensures forall sp :: sp in turns <==> TurnsOf(segs, sp) != []
    ensures forall sp <- turns :: turns[sp] == TurnsOf(segs, sp)
  {
    turns := map[];
    for i := 0 to |segs|
      invariant forall sp :: sp in turns <==> TurnsOf(segs[..i], sp) != []
      invariant forall sp <- turns :: turns[sp] == TurnsOf(segs[..i], sp)
    {
      assert segs[..i + 1][..i] == segs[..i];
      var sp := segs[i].speaker;
      turns := turns[sp := (if sp in turns then turns[sp] else []) + [segs[i]]];
    }
    assert segs[..|segs|] == segs;
  }

  /** A speaker's turns are picked one by one, in order. */
  lemma {:induction false} TurnsAdd(a: seq<Segment>, b: seq<Segment>, speaker: string)
    ensures TurnsOf(a + b, speaker) == TurnsOf(a, speaker) + TurnsOf(b, speaker)
  {
    if b == [] {
      assert a + b == a;
    } else {
      TurnsAdd(a, b[..|b| - 1], speaker);
      assert (a + b)[..|a + b| - 1] == a + b[..|b| - 1];
    }
  }

  lemma TurnOfOne(seg: Segment, speaker: string)
    ensures TurnsOf([seg], speaker) == if seg.speaker == speaker then [seg] else []
  {
    assert [seg][..0] == [];
  }

  /** Exactly the speakers whose own turns yield a verdict get one, and it is that verdict. */
  method ClassifySpeakers(audioLen: nat, segs: seq<Segment>, sampleRate: nat, env: Option<nat>, model: Model)
    returns (out: map<string, Verdict>)
    ensures forall sp :: sp in out <==> SpeakerVerdict(TurnsOf(segs, sp), audioLen, sampleRate, MaxSamples(env, sampleRate), model).Some?
    ensures forall sp :: sp in out <==>
              exists seg <- LongestTurns(TurnsOf(segs, sp)) :: IsHeard(seg, audioLen, sampleRate, MaxSamples(env, sampleRate), model)
    ensures forall sp <- out :: Some(out[sp]) == SpeakerVerdict(TurnsOf(segs, sp), audioLen, sampleRate, MaxSamples(env, sampleRate), model)
  {
    var turns := GroupBySpeaker(segs);
    var cap := MaxSamples(env, sampleRate);
    out := map[];
    var left := turns.Keys;
    while left != {}
      invariant left <= turns.Keys
      invariant forall sp :: sp in out <==>
                  sp in turns && sp !in left && SpeakerVerdict(turns[sp], audioLen, sampleRate, cap, model).Some?
      invariant forall sp <- out :: Some(out[sp]) == SpeakerVerdict(turns[sp], audioLen, sampleRate, cap, model)
      decreases |left|
    {
      var sp :| sp in left;
      var verdict := JudgeSpeaker(turns[sp], audioLen, sampleRate, cap, model);
      if verdict.Some? {
        out := out[sp := verdict.value];
      }
      left := left - {sp};
    }
    SilentSpeaker(audioLen, sampleRate, cap, model);
    forall sp: string
      ensures SpeakerVerdict(TurnsOf(segs, sp), audioLen, sampleRate, cap, model).Some? <==>
              exists seg <- LongestTurns(TurnsOf(segs, sp)) :: IsHeard(seg, audioLen, sampleRate, cap, model)
    {
      JudgedExactlyWhen(TurnsOf(segs, sp), audioLen, sampleRate, cap, model);
    }
  }

  lemma SilentSpeaker(audioLen: nat, sampleRate: nat, cap: nat, model: Model)
    ensures SpeakerVerdict([], audioLen, sampleRate, cap, model) == None
  {
  }

  // ---------------------------------------------------------------- softmax at the end of `classify`

  ghost predicate AddsToProduct(exp: real -> real, a: real, b: real) {
    exp(a + b) == exp(a) * exp(b)
  }

  ghost predicate TakesSumsToProducts(exp: real -> real) {
    forall a, b :: AddsToProduct(exp, a, b)
  }

  ghost predicate Positive(exp: real -> real) {
    forall a :: exp(a) > 0.0
  }

  ghost predicate Increasing(exp: real -> real) {
    forall a, b :: a < b ==> exp(a) < exp(b)
  }

  /** What the proofs use of the exponential. */
  ghost predicate IsExp(exp: real -> real) {
    Positive(exp) && Increasing(exp) && TakesSumsToProducts(exp)
  }

  /** The softmax denominator, of logits shifted down by `shift`. */
  function ExpSum(logits: seq<real>, shift: real, exp: real -> real): real {
    if logits == [] then 0.0
    else ExpSum(logits[..|logits| - 1], shift, exp) + exp(logits[|logits| - 1] - shift)
  }

  /** Shifting the logits scales every term, and so the denominator, by the same factor. */
  lemma {:induction false} ShiftScalesSum(logits: seq<real>, shift: real, exp: real -> real)
    requires forall l <- logits :: exp(l - shift) * exp(shift) == exp(l - 0.0)
    ensures ExpSum(logits, shift, exp) * exp(shift) == ExpSum(logits, 0.0, exp)
  {
    if logits != [] {
      var rest, l := logits[..|logits| - 1], logits[|logits| - 1];
      assert l in logits && forall x <- rest :: x in logits;
      ShiftScalesSum(rest, shift, exp);
      Distribute(ExpSum(rest, shift, exp), exp(l - shift), exp(shift));
    }
  }

  lemma TermScales(l: real, shift: real, exp: real -> real)
    requires AddsToProduct(exp, l - shift, shift)
    ensures exp(l - shift) * exp(shift) == exp(l - 0.0)
  {
    assert l - shift + shift == l - 0.0;
  }

  lemma TermsScale(logits: seq<real>, shift: real, exp: real -> real)
    requires TakesSumsToProducts(exp)
    ensures forall l <- logits :: exp(l - shift) * exp(shift) == exp(l - 0.0)
  {
    forall l <- logits
      ensures exp(l - shift) * exp(shift) == exp(l - 0.0)
    {
      TermScales(l, shift, exp);
    }
  }

  lemma Distribute(a: real, b: real, c: real)
    ensures (a + b) * c == a * c + b * c
  {
  }

  lemma {:induction false} ExpSumBounds(logits: seq<real>, shift: real, exp: real -> real, e: real)
    requires forall l <- logits :: 0.0 < exp(l - shift) <= e
    ensures 0.0 <= ExpSum(logits, shift, exp) <= |logits| as real * e
  {
    if logits != [] {
      var rest, l := logits[..|logits| - 1], logits[|logits| - 1];
      assert l in logits && forall x <- rest :: x in logits;
      ExpSumBounds(rest, shift, exp, e);
      Distribute(|rest| as real, 1.0, e);
    }
  }

  lemma {:induction false} ExpSumHolds(logits: seq<real>, shift: real, exp: real -> real, j: nat)
    requires j < |logits| && forall l <- logits :: 0.0 < exp(l - shift)
    ensures exp(logits[j] - shift) <= ExpSum(logits, shift, exp)
  {
    var rest, l := logits[..|logits| - 1], logits[|logits| - 1];
    assert l in logits && forall x <- rest :: x in logits;
    if j < |rest| {
      ExpSumHolds(rest, shift, exp, j);
    } else {
      ExpSumNonNegative(rest, shift, exp);
    }
  }

  lemma {:induction false} ExpSumNonNegative(logits: seq<real>, shift: real, exp: real -> real)
    requires forall l <- logits :: 0.0 < exp(l - shift)
    ensures ExpSum(logits, shift, exp) >= 0.0
  {
    if logits != [] {
      var rest, l := logits[..|logits| - 1], logits[|logits| - 1];
      assert l in logits && forall x <- rest :: x in logits;
      ExpSumNonNegative(rest, shift, exp);
    }
  }

  lemma SameRatio(a: real, s: real, k: real, a': real, s': real)
    requires k > 0.0 && s > 0.0 && a * k == a' && s * k == s'
    ensures s' > 0.0 && a / s == a' / s'
  {
    var q := a / s;
    assert q * s == a;
    assert q * s' == a' by {
      assert q * (s * k) == (q * s) * k;
    }
  }

  lemma RatioBounds(a: real, s: real, n: nat)
    requires 0.0 < a <= s <= n as real * a && n > 0
    ensures 1.0 / n as real <= a / s <= 1.0
  {
    var q, u := a / s, 1.0 / n as real;
    assert q * s == a && u * n as real == 1.0;
    assert u * (n as real * a) == (u * n as real) * a;
  }

  method MaxOf(logits: seq<real>) returns (max: real)
    requires logits != []
    ensures max in logits && forall l <- logits :: l <= max
  {
    max := logits[0];
    for i := 1 to |logits|
      invariant max in logits[..i] && forall l <- logits[..i] :: l <= max
    {
      if logits[i] > max {
        max := logits[i];
      }
      assert logits[..i + 1] == logits[..i] + [logits[i]];
    }
    assert logits[..|logits|] == logits;
  }

  /** The exponentials, their sum, and the last place of the greatest of them. */
  method Exponentials(logits: seq<real>, max: real, exp: real -> real) returns (idx: nat, sum: real)
    requires logits != []
    ensures sum == ExpSum(logits, max, exp)
    ensures idx < |logits|
    ensures forall j :: 0 <= j <= idx ==> exp(logits[j] - max) <= exp(logits[idx] - max)
    ensures forall j :: idx < j < |logits| ==> exp(logits[j] - max) < exp(logits[idx] - max)
  {
    sum := 0.0;
    idx := 0;
    for i := 0 to |logits|
      invariant sum == ExpSum(logits[..i], max, exp)
      invariant i > 0 ==> idx < i
      invariant i == 0 ==> idx == 0
      invariant forall j :: 0 <= j <= idx && j < i ==> exp(logits[j] - max) <= exp(logits[idx] - max)
      invariant forall j :: idx < j < i ==> exp(logits[j] - max) < exp(logits[idx] - max)
    {
      assert logits[..i + 1][..i] == logits[..i];
      var e := exp(logits[i] - max);
      sum := sum + e;
      if i == 0 || e >= exp(logits[idx] - max) {
        idx := i;
      }
    }
    assert logits[..|logits|] == logits;
  }

  lemma ExpReflects(exp: real -> real, a: real, b: real)
    requires Increasing(exp)
    ensures exp(a) <= exp(b) ==> a <= b
    ensures exp(a) < exp(b) ==> a < b
  {
  }

  /** The place of the greatest exponential is the last place of the greatest logit. */
  lemma GreatestExponential(logits: seq<real>, max: real, exp: real -> real, idx: nat)
    requires Increasing(exp) && idx < |logits|
    requires forall j :: 0 <= j <= idx ==> exp(logits[j] - max) <= exp(logits[idx] - max)
    requires forall j :: idx < j < |logits| ==> exp(logits[j] - max) < exp(logits[idx] - max)
    ensures forall j :: 0 <= j <= idx ==> logits[j] <= logits[idx]
    ensures forall j :: idx < j < |logits| ==> logits[j] < logits[idx]
  {
    forall j | 0 <= j < |logits|
      ensures exp(logits[j] - max) <= exp(logits[idx] - max) ==> logits[j] <= logits[idx]
      ensures exp(logits[j] - max) < exp(logits[idx] - max) ==> logits[j] < logits[idx]
    {
      ExpReflects(exp, logits[j] - max, logits[idx] - max);
    }
  }

  /** The denominator of the shifted softmax lies between its greatest term and k times it. */
  lemma DenominatorBounds(logits: seq<real>, max: real, exp: real -> real, idx: nat, e: real, sum: real)
    requires Positive(exp) && Increasing(exp)
    requires idx < |logits| && logits[idx] == max && forall l <- logits :: l <= max
    requires e == exp(max - max) && sum == ExpSum(logits, max, exp)
    ensures 0.0 < e <= sum <= |logits| as real * e
  {
    forall l <- logits
      ensures 0.0 < exp(l - max) <= e
    {
      assert l - max < max - max || l == max;
    }
    ExpSumBounds(logits, max, exp, e);
    ExpSumHolds(logits, max, exp, idx);
  }

  lemma PlainDenominator(logits: seq<real>, max: real, exp: real -> real, e: real, sum: real)
    requires TakesSumsToProducts(exp) && e == exp(max - max) && sum == ExpSum(logits, max, exp)
    ensures sum * exp(max) == ExpSum(logits, 0.0, exp) && e * exp(max) == exp(max)
  {
    TermsScale(logits, max, exp);
    ShiftScalesSum(logits, max, exp);
    TermScales(max, max, exp);
    assert max - 0.0 == max;
  }

  /** `p` is the softmax of the last greatest logit, and at least an even share. */
  ghost predicate IsTopSoftmax(logits: seq<real>, exp: real -> real, idx: nat, p: real) {
    && idx < |logits|
    && (forall j :: 0 <= j <= idx ==> logits[j] <= logits[idx])
    && (forall j :: idx < j < |logits| ==> logits[j] < logits[idx])
    && ExpSum(logits, 0.0, exp) > 0.0
    && p == exp(logits[idx]) / ExpSum(logits, 0.0, exp)
    && 1.0 / |logits| as real <= p <= 1.0
  }

  lemma SoftmaxOfGreatest(logits: seq<real>, max: real, exp: real -> real, idx: nat, e: real, sum: real)
    requires idx < |logits| && logits[idx] == max && exp(max) > 0.0
    requires forall j :: 0 <= j <= idx ==> logits[j] <= logits[idx]
    requires forall j :: idx < j < |logits| ==> logits[j] < logits[idx]
    requires 0.0 < e <= sum <= |logits| as real * e
    requires sum * exp(max) == ExpSum(logits, 0.0, exp) && e * exp(max) == exp(max)
    ensures IsTopSoftmax(logits, exp, idx, e / sum)
  {
    SameRatio(e, sum, exp(max), exp(max), ExpSum(logits, 0.0, exp));
    RatioBounds(e, sum, |logits|);
  }

  /** The answer is the last greatest logit with its plain softmax, at least 1/k for k classes; no
      logits give class 0 with confidence zero. */
  method Softmax(logits: seq<real>, exp: real -> real) returns (idx: nat, p: real)
    requires IsExp(exp)
    ensures logits == [] ==> idx == 0 && p == 0.0
    ensures logits != [] ==> IsTopSoftmax(logits, exp, idx, p)
  {
    if logits == [] {
      return 0, 0.0;
    }
    var max := MaxOf(logits);
    var sum;
    idx, sum := Exponentials(logits, max, exp);
    var e := exp(max - max);
    TopSoftmax(logits, max, exp, idx, e, sum);
    p := e / sum;
  }

  lemma TopSoftmax(logits: seq<real>, max: real, exp: real -> real, idx: nat, e: real, sum: real)
    requires IsExp(exp) && max in logits && forall l <- logits :: l <= max
    requires idx < |logits| && e == exp(max - max) && sum == ExpSum(logits, max, exp)
    requires forall j :: 0 <= j <= idx ==> exp(logits[j] - max) <= exp(logits[idx] - max)
    requires forall j :: idx < j < |logits| ==> exp(logits[j] - max) < exp(logits[idx] - max)
    ensures sum > 0.0 && IsTopSoftmax(logits, exp, idx, e / sum)
  {
    GreatestExponential(logits, max, exp, idx);
    GreatestIsMax(logits, max, idx);
    DenominatorBounds(logits, max, exp, idx, e, sum);
    PlainDenominator(logits, max, exp, e, sum);
    assert exp(max) > 0.0;
    SoftmaxOfGreatest(logits, max, exp, idx, e, sum);
  }

  lemma GreatestIsMax(logits: seq<real>, max: real, idx: nat)
    requires max in logits && idx < |logits| && forall l <- logits :: l <= max
    requires forall j :: 0 <= j <= idx ==> logits[j] <= logits[idx]
    requires forall j :: idx < j < |logits| ==> logits[j] < logits[idx]
    ensures logits[idx] == max
  {
    var j :| 0 <= j < |logits| && logits[j] == max;
    assert logits[idx] in logits && logits[j] <= logits[idx];
  }

  // ---------------------------------------------------------------- the vote over softmax answers

  /** `model` is the softmax of a network with one logit for each of the two classes, where the
      network answers at all. */
  ghost predicate IsSoftmaxOf(model: Model, network: Window -> Option<seq<real>>, exp: real -> real) {
    forall w: Window ::
      match network(w)
      case None => model(w).None?
      case Some(logits) =>
        && |logits| == 2 && model(w).Some?
        && IsTopSoftmax(logits, exp, if model(w).value.male then 1 else 0, model(w).value.confidence)
  }

  lemma TwoClassConfidence(logits: seq<real>, exp: real -> real, idx: nat, p: real)
    requires |logits| == 2 && IsTopSoftmax(logits, exp, idx, p)
    ensures 0.5 <= p <= 1.0
  {
    assert 1.0 / |logits| as real == 0.5;
  }

  /** MAIN RESULT. Of a softmax network, every verdict is sound: it rests on one to five windows,
      names a class of greatest summed softmax, and its confidence lies in [1/4, 1]. */
  lemma SoftmaxVerdictIsSound(turns: seq<Segment>, audioLen: nat, sampleRate: nat, cap: nat, model: Model,
                              network: Window -> Option<seq<real>>, exp: real -> real)
    requires IsSoftmaxOf(model, network, exp)
    requires SpeakerVerdict(turns, audioLen, sampleRate, cap, model).Some?
    ensures var votes := Votes(Windows(LongestTurns(turns), Crop(audioLen, sampleRate, cap)), model);
            var v := SpeakerVerdict(turns, audioLen, sampleRate, cap, model).value;
            IsSound(v, votes) && v.windows <= MAX_WINDOWS_PER_SPEAKER
  {
    forall w: Window | model(w).Some?
      ensures 0.5 <= model(w).value.confidence <= 1.0
    {
      TwoClassConfidence(network(w).value, exp, if model(w).value.male then 1 else 0, model(w).value.confidence);
    }
    VerdictIsSound(turns, audioLen, sampleRate, cap, model);
  }
}
