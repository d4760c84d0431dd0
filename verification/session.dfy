/** The state both practice screens keep between renders, and the two
    transitions that change it: submitting an answer (`checkAnswer`) and
    starting over (`resetPractice`). The problem type `P` and the answer-box
    type `I` are those of the screen. */
module Session {

  /** One entry of `answers`: the problem, whether it was invertible, what the
      student claimed and typed, and the verdict. */
  datatype Answer<P, I> = Answer(problem: P, actualInvertible: bool, userInvertible: bool,
                                 userAnswer: I, isCorrect: bool)

  datatype State<P, I> = State(
    problems: seq<P>,
    current: nat,
    answers: seq<Answer<P, I>>,
    score: int,
    showSummary: bool,
    userInvertible: bool,
    userInput: I)

  /** How many recorded answers were correct. */
  function CountCorrect<P, I>(answers: seq<Answer<P, I>>): (n: nat)
    ensures n <= |answers|
  {
    if |answers| == 0 then 0
    else CountCorrect(answers[..|answers| - 1]) + (if answers[|answers| - 1].isCorrect then 1 else 0)
  }

  /** What the screen keeps true: the score counts the correct answers, one
      answer has been recorded for every problem passed, and the cursor stays
      on a problem. */
  predicate Consistent<P, I>(s: State<P, I>) {
    && s.score == CountCorrect(s.answers)
    && |s.answers| == s.current + (if s.showSummary then 1 else 0)
    && s.current < |s.problems|
  }

  /** A fresh set: the cursor on the first problem, nothing answered, no
      score, the summary hidden and the boxes empty. The switch keeps
      whatever position it had. */
  function Start<P, I>(problems: seq<P>, userInvertible: bool, blank: I): (s: State<P, I>)
    requires |problems| > 0
    ensures Consistent(s) && !s.showSummary
    ensures s.problems == problems && s.current == 0 && s.answers == [] && s.score == 0
    ensures s.userInvertible == userInvertible && s.userInput == blank
  {
    State(problems, 0, [], 0, false, userInvertible, blank)
  }

  /** `checkAnswer` once the verdict is known. It appends exactly one answer,
      adds 1 to the score exactly when the answer is correct, then moves to
      the next problem (clearing the boxes and the switch) or, after the last
      problem, shows the summary. The button only exists while the summary
      is hidden. */
  function Submit<P, I>(s: State<P, I>, actualInvertible: bool, isCorrect: bool, blank: I): (r: State<P, I>)
    requires s.current < |s.problems| && !s.showSummary
    ensures r.problems == s.problems
    ensures |r.answers| == |s.answers| + 1 && r.answers[..|s.answers|] == s.answers
    ensures r.answers[|s.answers|] ==
              Answer(s.problems[s.current], actualInvertible, s.userInvertible, s.userInput, isCorrect)
    ensures r.score == s.score + (if isCorrect then 1 else 0)
    ensures s.current + 1 < |s.problems| ==>
              r.current == s.current + 1 && !r.showSummary && r.userInput == blank && !r.userInvertible
    ensures s.current + 1 >= |s.problems| ==>
              r.current == s.current && r.showSummary
              && r.userInput == s.userInput && r.userInvertible == s.userInvertible
  {
    var answer := Answer(s.problems[s.current], actualInvertible, s.userInvertible, s.userInput, isCorrect);
    var answers := s.answers + [answer];
    assert answers[..|s.answers|] == s.answers;
    var score := if isCorrect then s.score + 1 else s.score;
    if s.current + 1 < |s.problems| then
      s.(current := s.current + 1, answers := answers, score := score,
         userInput := blank, userInvertible := false)
    else
      s.(answers := answers, score := score, showSummary := true)
  }

  /** `resetPractice` with the newly generated problems: everything but the
      switch goes back to the start. */
  function Reset<P, I>(s: State<P, I>, problems: seq<P>, blank: I): (r: State<P, I>)
    requires |problems| > 0
    ensures r == Start(problems, s.userInvertible, blank)
  {
    State(problems, 0, [], 0, false, s.userInvertible, blank)
  }

  // ---------------------------------------------------------------------------

  /** Counting over one more answer adds its verdict. */
  lemma {:induction false} CountCorrectAppend<P, I>(answers: seq<Answer<P, I>>, a: Answer<P, I>)
    ensures CountCorrect(answers + [a]) == CountCorrect(answers) + (if a.isCorrect then 1 else 0)
  {
    assert (answers + [a])[..|answers|] == answers;
  }

  /** Submitting keeps the screen's bookkeeping consistent: the score goes on
      counting exactly the correct answers. */
  lemma SubmitConsistent<P, I>(s: State<P, I>, actualInvertible: bool, isCorrect: bool, blank: I)
    requires Consistent(s) && !s.showSummary
    ensures Consistent(Submit(s, actualInvertible, isCorrect, blank))
  {
    var r := Submit(s, actualInvertible, isCorrect, blank);
    assert r.answers == s.answers + [r.answers[|s.answers|]];
    CountCorrectAppend(s.answers, r.answers[|s.answers|]);
  }

  /** How many of a run of `(actualInvertible, isCorrect)` verdicts are
      correct. */
  function Passed(verdicts: seq<(bool, bool)>): (n: nat)
    ensures n <= |verdicts|
  {
    if |verdicts| == 0 then 0 else (if verdicts[0].1 then 1 else 0) + Passed(verdicts[1..])
  }

  /** From index `from` on, `answers` holds one answer per verdict, each
      carrying its verdict. */
  predicate Carries<P, I>(answers: seq<Answer<P, I>>, from: nat, verdicts: seq<(bool, bool)>) {
    && |answers| == from + |verdicts|
    && forall k :: 0 <= k < |verdicts| ==>
         (answers[from + k].actualInvertible, answers[from + k].isCorrect) == verdicts[k]
  }

  /** An answer carrying the first verdict, followed by answers carrying the
      rest, carries them all. */
  lemma CarriesCons<P, I>(answers: seq<Answer<P, I>>, from: nat, verdicts: seq<(bool, bool)>)
    requires |verdicts| > 0 && from < |answers|
    requires (answers[from].actualInvertible, answers[from].isCorrect) == verdicts[0]
    requires Carries(answers, from + 1, verdicts[1..])
    ensures Carries(answers, from, verdicts)
  {
    forall k | 0 < k < |verdicts|
      ensures (answers[from + k].actualInvertible, answers[from + k].isCorrect) == verdicts[k]
    {
      assert verdicts[k] == verdicts[1..][k - 1];
    }
  }

  /** Submitting one verdict after another from a state, while problems
      remain. The answers recorded so far are kept and one answer is appended
      per verdict, carrying it. */
  function Run<P, I>(s: State<P, I>, verdicts: seq<(bool, bool)>, blank: I): (r: State<P, I>)
    requires Consistent(s) && (|verdicts| > 0 ==> !s.showSummary)
    requires |verdicts| <= |s.problems| - s.current
    decreases |verdicts|
    ensures Consistent(r) && r.problems == s.problems
    ensures Carries(r.answers, |s.answers|, verdicts) && r.answers[..|s.answers|] == s.answers
    ensures r.score == s.score + Passed(verdicts)
  {
    if |verdicts| == 0 then s
    else
      var next := Submit(s, verdicts[0].0, verdicts[0].1, blank);
      SubmitConsistent(s, verdicts[0].0, verdicts[0].1, blank);
      var r := Run(next, verdicts[1..], blank);
      assert r.answers[..|s.answers|] == r.answers[..|next.answers|][..|s.answers|];
      assert r.answers[|s.answers|] == next.answers[|s.answers|];
      CarriesCons(r.answers, |s.answers|, verdicts);
      r
  }

  /** Counting from the back agrees with counting from the front. */
  lemma {:induction false} PassedLast(verdicts: seq<(bool, bool)>)
    requires |verdicts| > 0
    ensures Passed(verdicts) == Passed(verdicts[..|verdicts| - 1]) + (if verdicts[|verdicts| - 1].1 then 1 else 0)
    decreases |verdicts|
  {
    if |verdicts| > 1 {
      PassedLast(verdicts[1..]);
      assert verdicts[1..][..|verdicts| - 2] == verdicts[..|verdicts| - 1][1..];
    }
  }

  /** `Passed` counts what `CountCorrect` counts: answers carrying the
      verdicts have as many correct ones as the verdicts. */
  lemma {:induction false} PassedCountsCorrect<P, I>(answers: seq<Answer<P, I>>, verdicts: seq<(bool, bool)>)
    requires |answers| == |verdicts|
    requires forall k :: 0 <= k < |answers| ==> answers[k].isCorrect == verdicts[k].1
    ensures CountCorrect(answers) == Passed(verdicts)
    decreases |answers|
  {
    if |answers| > 0 {
      var n := |answers| - 1;
      PassedCountsCorrect(answers[..n], verdicts[..n]);
      PassedLast(verdicts);
    }
  }

  /** After a run, the answers it appended hold exactly `Passed(verdicts)`
      correct ones, matching the rise in the score. */
  lemma RunCountsCorrect<P, I>(s: State<P, I>, verdicts: seq<(bool, bool)>, blank: I)
    requires Consistent(s) && (|verdicts| > 0 ==> !s.showSummary)
    requires |verdicts| <= |s.problems| - s.current
    ensures CountCorrect(Run(s, verdicts, blank).answers[|s.answers|..]) == Passed(verdicts)
  {
    var r := Run(s, verdicts, blank);
    var added := r.answers[|s.answers|..];
    forall k | 0 <= k < |added| ensures added[k].isCorrect == verdicts[k].1 {
      assert added[k] == r.answers[|s.answers| + k];
    }
    PassedCountsCorrect(added, verdicts);
  }

  /** Answering every remaining problem ends on the summary, with one more
      answer per problem and the score raised by the number answered
      correctly. */
  lemma {:induction false} FullRunShowsSummary<P, I>(s: State<P, I>, verdicts: seq<(bool, bool)>, blank: I)
    requires Consistent(s) && !s.showSummary
    requires |verdicts| == |s.problems| - s.current
    ensures Run(s, verdicts, blank).showSummary
    ensures |Run(s, verdicts, blank).answers| == |s.answers| + |verdicts|
    ensures Run(s, verdicts, blank).score == s.score + Passed(verdicts)
    decreases |verdicts|
  {
    var next := Submit(s, verdicts[0].0, verdicts[0].1, blank);
    SubmitConsistent(s, verdicts[0].0, verdicts[0].1, blank);
    if |verdicts| > 1 {
      FullRunShowsSummary(next, verdicts[1..], blank);
    }
  }
}
