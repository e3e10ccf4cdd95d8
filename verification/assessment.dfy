/** The assessment page (enliven-frontend/src/components/pages/AssessmentPage.jsx):
    scoring the answers, the 60% pass mark, the local-storage record that
    unlocks the next module or marks the final exam done, the badge request
    after a passed final, the clock display, and the session state the page
    keeps (answers, question, timer, proctoring violations). */
module Assessment {

  import opened Wrappers
  import opened Text
  import opened Rounding
  import opened TestKeys
  import opened CourseLessons
  import opened CoursePage

  /** `MAX_VIOLATIONS`: the third violation submits the test. */
  const MaxViolations: nat := 3
  /** The initial and reset value of the countdown, in seconds. */
  const TimeLimit: nat := 600
  /** `results.percentage >= 60`. */
  const PassMark: nat := 60

  /** A question as the proctor service returns it. */
  datatype Question = Question(question: string, options: seq<string>, correctIndex: int)

  /** `{ correct, total, percentage }`. */
  datatype Score = Score(correct: nat, total: nat, percentage: nat)

  datatype Phase = Taking | Submitted

  // ---------------------------------------------------------------------
  // Scoring
  // ---------------------------------------------------------------------

  /** `selectedAnswers[i] === q.correctIndex`: a slot past the end of the
      answer array is `undefined` and never matches. */
  predicate IsCorrect(qs: seq<Question>, answers: seq<Option<int>>, i: nat)
    requires i < |qs|
  {
    i < |answers| && answers[i] == Some(qs[i].correctIndex)
  }

  /** The number of correctly answered questions among the first `n`. */
  function CountCorrect(qs: seq<Question>, answers: seq<Option<int>>, n: nat): (c: nat)
    requires n <= |qs|
    ensures c <= n
  {
    if n == 0 then 0
    else CountCorrect(qs, answers, n - 1) + if IsCorrect(qs, answers, n - 1) then 1 else 0
  }

  /** The result `calculateResults` reports: nothing to score gives 0/0/0. */
  function ScoreOf(qs: seq<Question>, answers: seq<Option<int>>): (r: Score)
    ensures r.correct <= r.total == |qs| && r.percentage <= 100
    ensures qs == [] ==> r == Score(0, 0, 0)
  {
    if qs == [] then Score(0, 0, 0)
    else
      var c := CountCorrect(qs, answers, |qs|);
      Score(c, |qs|, RoundPercent(c, |qs|))
  }

  /** `calculateResults`: counts the matching answers in one pass. */
  method CalculateResults(qs: seq<Question>, answers: seq<Option<int>>) returns (r: Score)
    ensures r == ScoreOf(qs, answers)
  {
    if |qs| == 0 {
      return Score(0, 0, 0);
    }
    var correct := 0;
    var i := 0;
    while i < |qs|
      invariant 0 <= i <= |qs|
      invariant correct == CountCorrect(qs, answers, i)
    {
      if i < |answers| && answers[i] == Some(qs[i].correctIndex) {
        correct := correct + 1;
      }
      i := i + 1;
    }
    r := Score(correct, |qs|, RoundPercent(correct, |qs|));
  }

  /** The correctly answered positions below `n`. */
  function CorrectBelow(qs: seq<Question>, answers: seq<Option<int>>, n: nat): set<nat> {
    set i: nat | i < n && i < |qs| && IsCorrect(qs, answers, i)
  }

  /** The count is exact: it is the number of correctly answered positions. */
  lemma {:induction false} CountCorrectIsCardinality(qs: seq<Question>, answers: seq<Option<int>>, n: nat)
    requires n <= |qs|
    ensures CountCorrect(qs, answers, n) == |CorrectBelow(qs, answers, n)|
  {
    if n > 0 {
      CountCorrectIsCardinality(qs, answers, n - 1);
      if IsCorrect(qs, answers, n - 1) {
        assert CorrectBelow(qs, answers, n) == CorrectBelow(qs, answers, n - 1) + {n - 1};
      } else {
        assert CorrectBelow(qs, answers, n) == CorrectBelow(qs, answers, n - 1);
      }
    }
  }

  /** Every question answered correctly gives 100%. */
  lemma {:induction false} AllCorrectCountsAll(qs: seq<Question>, answers: seq<Option<int>>, n: nat)
    requires n <= |qs|
    requires forall i :: 0 <= i < n ==> IsCorrect(qs, answers, i)
    ensures CountCorrect(qs, answers, n) == n
  {
    if n > 0 {
      AllCorrectCountsAll(qs, answers, n - 1);
    }
  }

  /** No question answered correctly gives 0. */
  lemma {:induction false} NoneCorrectCountsNone(qs: seq<Question>, answers: seq<Option<int>>, n: nat)
    requires n <= |qs|
    requires forall i :: 0 <= i < n ==> !IsCorrect(qs, answers, i)
    ensures CountCorrect(qs, answers, n) == 0
  {
    if n > 0 {
      NoneCorrectCountsNone(qs, answers, n - 1);
    }
  }

  predicate Passed(s: Score) {
    s.percentage >= PassMark
  }

  /** A full score passes and a blank or all-wrong sheet fails. */
  lemma ExtremeScores(qs: seq<Question>, answers: seq<Option<int>>)
    requires qs != []
    ensures (forall i :: 0 <= i < |qs| ==> IsCorrect(qs, answers, i)) ==> ScoreOf(qs, answers).percentage == 100
    ensures (forall i :: 0 <= i < |qs| ==> !IsCorrect(qs, answers, i)) ==> !Passed(ScoreOf(qs, answers))
  {
    if forall i :: 0 <= i < |qs| ==> IsCorrect(qs, answers, i) {
      AllCorrectCountsAll(qs, answers, |qs|);
    }
    if forall i :: 0 <= i < |qs| ==> !IsCorrect(qs, answers, i) {
      NoneCorrectCountsNone(qs, answers, |qs|);
    }
  }

  /** The pass mark in exact terms: with `Math.round`, a score passes exactly
      when at least 59.5% of the questions are answered correctly. */
  lemma PassedIff(qs: seq<Question>, answers: seq<Option<int>>)
    requires qs != []
    ensures var s := ScoreOf(qs, answers);
      Passed(s) <==> 200 * s.correct >= 119 * s.total
  {
    var s := ScoreOf(qs, answers);
    var a, b, r := s.correct, s.total, s.percentage;
    assert 2 * b * r <= 200 * a + b < 2 * b * (r + 1);
    if r >= PassMark {
      MulAtLeast(2 * b, r, PassMark);
    } else {
      MulAtLeast(2 * b, PassMark, r + 1);
    }
  }

  lemma MulAtLeast(d: nat, x: nat, y: nat)
    requires x >= y
    ensures d * x >= d * y
  {
  }

  /** Answering one more question correctly never lowers the score. */
  lemma {:induction false} CountCorrectMonotone(qs: seq<Question>, answers: seq<Option<int>>, answers': seq<Option<int>>, n: nat)
    requires n <= |qs|
    requires forall i :: 0 <= i < n && IsCorrect(qs, answers, i) ==> IsCorrect(qs, answers', i)
    ensures CountCorrect(qs, answers, n) <= CountCorrect(qs, answers', n)
  {
    if n > 0 {
      CountCorrectMonotone(qs, answers, answers', n - 1);
    }
  }

  // ---------------------------------------------------------------------
  // The submitted view
  // ---------------------------------------------------------------------

  /** The key `markTestComplete` writes: the final exam's key for a final,
      the module test's key otherwise. */
  function CompletionKey(isFinal: bool, domain: string, level: string, moduleId: string): string {
    if isFinal then FinalKey(domain, level) else TestKey(domain, level, moduleId)
  }

  /** `markTestComplete`. */
  function MarkTestComplete(storage: Storage, isFinal: bool, domain: string, level: string, moduleId: string): (r: Storage)
    ensures IsDone(r, CompletionKey(isFinal, domain, level, moduleId))
    ensures forall k :: k != CompletionKey(isFinal, domain, level, moduleId) ==>
      (k in r <==> k in storage) && (k in storage ==> r[k] == storage[k])
  {
    storage[CompletionKey(isFinal, domain, level, moduleId) := "done"]
  }

  /** What the submitted view shows and causes: the score, the verdict, the
      storage after `markTestComplete` and whether the badge request goes
      out. */
  datatype Verdict = Verdict(score: Score, passed: bool, storage: Storage, badgeRequested: bool)

  /** The submitted view. With no questions the page shows the load failure
      instead, and nothing is scored or written. */
  function SubmittedView(qs: seq<Question>, answers: seq<Option<int>>, storage: Storage,
                         isFinal: bool, domain: string, level: string, moduleId: string): (v: Option<Verdict>)
    ensures v.None? <==> qs == []
  {
    if qs == [] then None
    else
      var score := ScoreOf(qs, answers);
      var passed := Passed(score);
      var storage' := if passed then MarkTestComplete(storage, isFinal, domain, level, moduleId) else storage;
      Some(Verdict(score, passed, storage', isFinal && passed))
  }

  /** The verdict: a pass is recorded under the test's key and changes no
      other key, a fail changes nothing, and the badge is requested for a
      passed final only. */
  lemma SubmittedViewEffect(qs: seq<Question>, answers: seq<Option<int>>, storage: Storage,
                            isFinal: bool, domain: string, level: string, moduleId: string)
    requires qs != []
    ensures var v := SubmittedView(qs, answers, storage, isFinal, domain, level, moduleId).value;
      var key := CompletionKey(isFinal, domain, level, moduleId);
      (v.passed <==> 200 * v.score.correct >= 119 * |qs|) &&
      (v.passed ==> IsDone(v.storage, key)) &&
      (!v.passed ==> v.storage == storage) &&
      (forall k :: k != key ==> (k in v.storage <==> k in storage) && (k in storage ==> v.storage[k] == storage[k])) &&
      (v.badgeRequested <==> isFinal && v.passed)
  {
    PassedIff(qs, answers);
  }

  /** A module test never marks the final exam done, and a final never marks
      a module test done. */
  lemma SubmittedViewKeepsOtherKind(qs: seq<Question>, answers: seq<Option<int>>, storage: Storage,
                                    isFinal: bool, domain: string, level: string, moduleId: string,
                                    d: string, l: string, m: string)
    requires qs != []
    ensures var v := SubmittedView(qs, answers, storage, isFinal, domain, level, moduleId).value;
      (!isFinal ==> (IsDone(v.storage, FinalKey(d, l)) <==> IsDone(storage, FinalKey(d, l)))) &&
      (isFinal ==> (IsDone(v.storage, TestKey(d, l, m)) <==> IsDone(storage, TestKey(d, l, m))))
  {
    TestAndFinalKeysDiffer(domain, level, moduleId, d, l);
    TestAndFinalKeysDiffer(d, l, m, domain, level);
  }

  /** Showing the submitted view again (a re-render) writes nothing new. */
  lemma SubmittedViewIdempotent(qs: seq<Question>, answers: seq<Option<int>>, storage: Storage,
                                isFinal: bool, domain: string, level: string, moduleId: string)
    requires qs != []
    ensures var v := SubmittedView(qs, answers, storage, isFinal, domain, level, moduleId).value;
      SubmittedView(qs, answers, v.storage, isFinal, domain, level, moduleId).value.storage == v.storage
  {
  }

  /** Passing a module test opens the next module on the course page: after
      the submitted view has recorded the pass for the active lesson's module,
      completing the module's last lesson makes the locked first lesson of
      the next module current. */
  lemma PassedTestOpensNextModule(qs: seq<Question>, answers: seq<Option<int>>, storage: Storage,
                                  domain: string, level: string,
                                  secs: seq<Section>, a: Lesson, i: nat)
    requires qs != [] && Passed(ScoreOf(qs, answers))
    requires DistinctIds(Flatten(secs))
    requires i + 1 < |Flatten(secs)| && Flatten(secs)[i].id == a.id
    requires Flatten(secs)[i + 1].status == Locked && Flatten(secs)[i + 1].topicId != a.topicId
    ensures var v := SubmittedView(qs, answers, storage, false, domain, level, a.topicId).value;
      var out := Complete(secs, Some(a), v.storage, domain, level);
      |Flatten(out.sections)| == |Flatten(secs)| && Flatten(out.sections)[i + 1].status == Current
  {
    var v := SubmittedView(qs, answers, storage, false, domain, level, a.topicId).value;
    assert IsDone(v.storage, TestKey(domain, level, a.topicId));
    ModuleBoundaryNeedsTest(secs, a, i, v.storage, domain, level);
  }

  // ---------------------------------------------------------------------
  // The clock
  // ---------------------------------------------------------------------

  /** `formatTime`: minutes, a colon and the seconds padded to two digits.
      The countdown never goes below zero, where `Math.floor` and `%` agree
      with Euclidean division. */
  function FormatTime(seconds: nat): (r: string)
    ensures |r| >= 4 && r[|r| - 3] == ':'
    ensures forall k :: 0 <= k < |r| && k != |r| - 3 ==> IsDigit(r[k])
  {
    var m, s := NatToString(seconds / 60), NatToString(seconds % 60);
    assert |s| <= 2 by {
      SmallNatDigits(seconds % 60);
    }
    var r := m + ":" + PadStart2(s);
    assert forall k :: 0 <= k < |m| ==> r[k] == m[k];
    assert forall k :: |m| < k < |r| ==> r[k] == PadStart2(s)[k - |m| - 1];
    r
  }

  lemma SmallNatDigits(n: nat)
    requires n < 100
    ensures |NatToString(n)| <= 2 && (n < 10 ==> |NatToString(n)| == 1)
  {
    if n >= 10 {
      assert NatToString(n) == NatToString(n / 10) + [DigitChar(n % 10)];
    }
  }

  /** Reading the clock back: the digits before the colon are the minutes,
      the two after it the seconds under a minute, and together they give
      the time left. */
  lemma FormatTimeRoundTrip(seconds: nat)
    ensures var r := FormatTime(seconds);
      DigitsValue(r[..|r| - 3]) == seconds / 60 &&
      DigitsValue(r[|r| - 2..]) == seconds % 60 &&
      DigitsValue(r[..|r| - 3]) * 60 + DigitsValue(r[|r| - 2..]) == seconds
  {
    var r := FormatTime(seconds);
    var m, s := NatToString(seconds / 60), NatToString(seconds % 60);
    SmallNatDigits(seconds % 60);
    assert r == m + ":" + PadStart2(s);
    assert r[..|r| - 3] == m;
    assert r[|r| - 2..] == PadStart2(s);
    NatToStringRoundTrip(seconds / 60);
    PaddedValue(seconds % 60);
  }

  lemma PaddedValue(n: nat)
    requires n < 60
    ensures var p := PadStart2(NatToString(n));
      |p| == 2 && IsDigit(p[0]) && IsDigit(p[1]) && DigitsValue(p) == n
  {
    SmallNatDigits(n);
    var s := NatToString(n);
    var p := PadStart2(s);
    NatToStringRoundTrip(n);
    if n < 10 {
      assert p == ['0', s[0]];
      assert p[..1] == ['0'] && ['0'][..0] == [];
      assert DigitsValue(p) == DigitsValue([s[0]]);
    } else {
      assert p == s;
    }
  }

  /** Different times show differently. */
  lemma FormatTimeInjective(a: nat, b: nat)
    requires FormatTime(a) == FormatTime(b)
    ensures a == b
  {
    FormatTimeRoundTrip(a);
    FormatTimeRoundTrip(b);
  }

  // ---------------------------------------------------------------------
  // Timer and violations as transitions
  // ---------------------------------------------------------------------

  /** `registerViolation`: one more violation; reaching the maximum submits. */
  function ViolationStep(violations: nat, phase: Phase): (nat, Phase) {
    (violations + 1, if violations + 1 >= MaxViolations then Submitted else phase)
  }

  /** The state after `n` violations starting from the given one. */
  function AfterViolations(n: nat, violations: nat, phase: Phase): (nat, Phase) {
    if n == 0 then (violations, phase)
    else
      var (v, p) := ViolationStep(violations, phase);
      AfterViolations(n - 1, v, p)
  }

  /** From a fresh or retaken test, the test is still being taken after one
      or two violations and is submitted by the third. */
  lemma {:induction false} ThirdViolationSubmits(n: nat, violations: nat, phase: Phase)
    ensures AfterViolations(n, violations, phase).0 == violations + n
    ensures violations + n >= MaxViolations && n > 0 ==> AfterViolations(n, violations, phase).1 == Submitted
    ensures violations + n < MaxViolations ==> AfterViolations(n, violations, phase).1 == phase
  {
    if n > 0 {
      var (v, p) := ViolationStep(violations, phase);
      ThirdViolationSubmits(n - 1, v, p);
    }
  }

  /** One second of the countdown: while taking, the clock counts down to
      zero and the test is submitted when it is at zero. */
  function TickStep(timeLeft: int, phase: Phase): (int, Phase) {
    if phase != Taking then (timeLeft, phase)
    else if timeLeft <= 0 then (timeLeft, Submitted)
    else (timeLeft - 1, phase)
  }

  function AfterTicks(n: nat, timeLeft: int, phase: Phase): (int, Phase) {
    if n == 0 then (timeLeft, phase)
    else
      var (t, p) := TickStep(timeLeft, phase);
      AfterTicks(n - 1, t, p)
  }

  /** The clock never goes below zero, and a test being taken with `t`
      seconds left is submitted after `t + 1` ticks at the latest. */
  lemma {:induction false} CountdownSubmits(n: nat, timeLeft: int, phase: Phase)
    requires timeLeft >= 0
    ensures AfterTicks(n, timeLeft, phase).0 >= 0
    ensures n > timeLeft ==> AfterTicks(n, timeLeft, phase).1 == Submitted || phase != Taking
    ensures phase == Taking && n <= timeLeft ==> AfterTicks(n, timeLeft, phase) == (timeLeft - n, Taking)
  {
    if n > 0 {
      var (t, p) := TickStep(timeLeft, phase);
      CountdownSubmits(n - 1, t, p);
      if phase == Taking && timeLeft == 0 {
        SubmittedStays(n - 1, t);
      }
    }
  }

  lemma {:induction false} SubmittedStays(n: nat, timeLeft: int)
    ensures AfterTicks(n, timeLeft, Submitted) == (timeLeft, Submitted)
  {
    if n > 0 {
      SubmittedStays(n - 1, timeLeft);
    }
  }

  // ---------------------------------------------------------------------
  // The page's state
  // ---------------------------------------------------------------------

  /** The state the assessment page keeps between renders. */
  class Session {
    var questions: seq<Question>
    /** `selectedAnswers`: `null` is `None`. */
    var answers: seq<Option<int>>
    var current: nat
    var phase: Phase
    var timeLeft: int
    var violations: nat

    /** The clock stays between zero and the limit, and reaching the
        violation limit has submitted the test. */
    predicate Valid()
      reads this
    {
      0 <= timeLeft <= TimeLimit && (violations >= MaxViolations ==> phase == Submitted)
    }

    /** `formatTime(timeLeft)`, the clock the page shows: it reads back to
        the remaining seconds, and a valid session never shows more than
        ten minutes, so the minutes take one or two digits. */
    function Clock(): (r: string)
      reads this
      requires Valid()
      ensures |r| == 4 || |r| == 5
      ensures r[|r| - 3] == ':' && forall k :: 0 <= k < |r| && k != |r| - 3 ==> IsDigit(r[k])
      ensures DigitsValue(r[..|r| - 3]) * 60 + DigitsValue(r[|r| - 2..]) == timeLeft
    {
      FormatTimeRoundTrip(timeLeft);
      SmallNatDigits(timeLeft / 60);
      PaddedValue(timeLeft % 60);
      assert FormatTime(timeLeft) == NatToString(timeLeft / 60) + ":" + PadStart2(NatToString(timeLeft % 60));
      FormatTime(timeLeft)
    }

    /** The initial `useState` values. */
    constructor()
      ensures questions == [] && answers == [] && current == 0
      ensures phase == Taking && timeLeft == TimeLimit && violations == 0
      ensures Valid()
    {
      questions, answers, current := [], [], 0;
      phase, timeLeft, violations := Taking, TimeLimit, 0;
    }

    /** `loadQuestions`: on success the questions are replaced and every
        answer is cleared; on failure nothing changes. */
    method LoadQuestions(loaded: Option<seq<Question>>)
      modifies this
      ensures loaded.Some? ==> questions == loaded.value && answers == seq(|loaded.value|, _ => None)
      ensures loaded.None? ==> questions == old(questions) && answers == old(answers)
      ensures current == old(current) && phase == old(phase)
      ensures timeLeft == old(timeLeft) && violations == old(violations)
      ensures old(Valid()) ==> Valid()
    {
      if loaded.Some? {
        questions := loaded.value;
        answers := seq(|loaded.value|, _ => None);
      }
    }

    /** `handleSelectAnswer`: only the current question's slot changes;
        writing past the end extends the array with empty slots. */
    method SelectAnswer(choice: int)
      modifies this
      ensures current == old(current)
      ensures |answers| == if current < |old(answers)| then |old(answers)| else current + 1
      ensures answers[current] == Some(choice)
      ensures forall j :: 0 <= j < |answers| && j != current ==>
        answers[j] == if j < |old(answers)| then old(answers)[j] else None
      ensures questions == old(questions) && phase == old(phase)
      ensures timeLeft == old(timeLeft) && violations == old(violations)
      ensures old(Valid()) ==> Valid()
    {
      var arr := answers;
      if current >= |arr| {
        arr := arr + seq(current + 1 - |arr|, _ => None);
      }
      answers := arr[current := Some(choice)];
    }

    /** The Next button: shown only before the last question. */
    method Next()
      modifies this
      ensures current == if old(current) + 1 < |questions| then old(current) + 1 else old(current)
      ensures questions == old(questions) && answers == old(answers) && phase == old(phase)
      ensures timeLeft == old(timeLeft) && violations == old(violations)
    {
      if current + 1 < |questions| {
        current := current + 1;
      }
    }

    /** The Previous button: disabled on the first question. */
    method Previous()
      modifies this
      ensures current == if old(current) > 0 then old(current) - 1 else 0
      ensures questions == old(questions) && answers == old(answers) && phase == old(phase)
      ensures timeLeft == old(timeLeft) && violations == old(violations)
    {
      if current > 0 {
        current := current - 1;
      }
    }

    /** `selectedAnswers.some(a => a === null)` disables Submit. */
    predicate CanSubmit()
      reads this
    {
      forall j :: 0 <= j < |answers| ==> answers[j].Some?
    }

    /** `handleSubmit`. */
    method Submit()
      modifies this
      ensures phase == Submitted
      ensures questions == old(questions) && answers == old(answers) && current == old(current)
      ensures timeLeft == old(timeLeft) && violations == old(violations)
      ensures old(Valid()) ==> Valid()
    {
      phase := Submitted;
    }

    /** `handleRetake`: every answer cleared, back to the first question,
        the clock reset and the violations forgotten. */
    method Retake()
      modifies this
      ensures answers == seq(|questions|, _ => None) && current == 0
      ensures phase == Taking && timeLeft == TimeLimit && violations == 0
      ensures questions == old(questions)
      ensures Valid()
    {
      answers := seq(|questions|, _ => None);
      current := 0;
      phase := Taking;
      timeLeft := TimeLimit;
      violations := 0;
    }

    /** `registerViolation`. */
    method RegisterViolation()
      modifies this
      ensures (violations, phase) == ViolationStep(old(violations), old(phase))
      ensures questions == old(questions) && answers == old(answers) && current == old(current)
      ensures timeLeft == old(timeLeft)
      ensures old(Valid()) ==> Valid()
    {
      violations := violations + 1;
      if violations >= MaxViolations {
        phase := Submitted;
      }
    }

    /** One second of the timer effect. */
    method Tick()
      modifies this
      ensures (timeLeft, phase) == TickStep(old(timeLeft), old(phase))
      ensures questions == old(questions) && answers == old(answers) && current == old(current)
      ensures violations == old(violations)
      ensures old(Valid()) ==> Valid()
    {
      if phase == Taking {
        if timeLeft <= 0 {
          phase := Submitted;
        } else {
          timeLeft := timeLeft - 1;
        }
      }
    }

    /** The submitted view for this session's questions and answers. */
    method Finish(storage: Storage, isFinal: bool, domain: string, level: string, moduleId: string)
      returns (v: Option<Verdict>)
      requires phase == Submitted
      ensures v == SubmittedView(questions, answers, storage, isFinal, domain, level, moduleId)
    {
      if |questions| == 0 {
        return None;
      }
      var score := CalculateResults(questions, answers);
      var passed := score.percentage >= PassMark;
      var storage' := storage;
      if passed {
        storage' := storage[CompletionKey(isFinal, domain, level, moduleId) := "done"];
      }
      v := Some(Verdict(score, passed, storage', isFinal && passed));
    }
  }
}
