/** The two practice screens: the session state of `Session` over that
    screen's problems and answer boxes, with `checkAnswer` grading the
    current problem by that screen's rule and `resetPractice` drawing a new
    set. */
module Practice {
  import opened Wrappers
  import opened Matrices
  import opened Forms
  import opened Generator
  import opened Grading
  import Session

  type State3 = Session.State<Problem3, Form3>
  type State2 = Session.State<Problem2, Form2>

  /** A session over a generated set, its bookkeeping consistent. */
  predicate Valid3(s: State3) {
    && Session.Consistent(s)
    && |s.problems| == ProblemCount
    && forall k :: 0 <= k < |s.problems| ==> Stored3(s.problems[k], k)
  }

  predicate Valid2(s: State2) {
    && Session.Consistent(s)
    && |s.problems| == ProblemCount
    && forall k :: 0 <= k < |s.problems| ==> Stored2(s.problems[k], k)
  }

  /** `checkAnswer` on the 3×3 screen. The score rises exactly when the
      claim matches the stored determinant and, for an invertible matrix,
      every cell (blank read as 0) is within 0.01 of the stored inverse. */
  function Submit3(s: State3, parse: string -> Option<real>): (r: State3)
    requires Valid3(s) && !s.showSummary
    ensures Valid3(r)
    ensures |r.answers| == |s.answers| + 1
    ensures r.score == s.score + 1 <==>
              var p := s.problems[s.current];
              && s.userInvertible == (p.determinant != 0.0)
              && (p.determinant != 0.0 ==> Within3(s.userInput, p.correctInverse.value, parse))
    ensures r.score == s.score || r.score == s.score + 1
  {
    var p := s.problems[s.current];
    var v := Judge3(p, s.userInvertible, s.userInput, parse);
    Session.SubmitConsistent(s, p.determinant != 0.0, IsCorrect(v), Empty3);
    Session.Submit(s, p.determinant != 0.0, IsCorrect(v), Empty3)
  }

  /** `checkAnswer` on the 2×2 screen, with tolerance 0.001 and no fallback
      for blank cells. */
  function Submit2(s: State2, parse: string -> Option<real>): (r: State2)
    requires Valid2(s) && !s.showSummary
    ensures Valid2(r)
    ensures |r.answers| == |s.answers| + 1
    ensures r.score == s.score + 1 <==>
              var p := s.problems[s.current];
              && s.userInvertible == (p.determinant != 0.0)
              && (p.determinant != 0.0 ==>
                    forall k :: 0 <= k < 4 ==> Close2(parse(s.userInput[k]), At2(p.correctInverse.value, k / 2, k % 2)))
    ensures r.score == s.score || r.score == s.score + 1
  {
    var p := s.problems[s.current];
    var v := Judge2(p, s.userInvertible, s.userInput, parse);
    Session.SubmitConsistent(s, p.determinant != 0.0, IsCorrect(v), Empty2);
    Session.Submit(s, p.determinant != 0.0, IsCorrect(v), Empty2)
  }

  /** The screen as first shown: a fresh set, the switch off. */
  method Open3(ds: seq<real>) returns (r: Option<State3>, pos: seq<nat>)
    requires Unit(ds)
    ensures r.Some? ==> Drawn3(r.value.problems, pos, ds)
    ensures r.Some? ==> Valid3(r.value) && r.value.current == 0 && r.value.answers == []
    ensures r.Some? ==> r.value.score == 0 && !r.value.showSummary && !r.value.userInvertible
    ensures r.Some? ==> r.value.userInput == Empty3
    ensures |ds| >= ProblemCount * MaxDraws3 ==> r.Some?
    ensures r.None? ==> 0 < |pos| <= ProblemCount && pos[|pos| - 1] <= |ds|
    ensures r.None? ==> Next3(|pos| - 1, ds[pos[|pos| - 1]..]).None?
    ensures r.None? ==> exists ps :: Drawn3(ps, pos, ds)
  {
    var problems;
    problems, pos := Generate3(ds);
    if problems.None? {
      return None, pos;
    }
    return Some(Session.Start(problems.value, false, Empty3)), pos;
  }

  method Open2(ds: seq<real>) returns (r: Option<State2>, pos: seq<nat>)
    requires Unit(ds)
    ensures r.Some? ==> Drawn2(r.value.problems, pos, ds)
    ensures r.Some? ==> Valid2(r.value) && r.value.current == 0 && r.value.answers == []
    ensures r.Some? ==> r.value.score == 0 && !r.value.showSummary && !r.value.userInvertible
    ensures r.Some? ==> r.value.userInput == Empty2
    ensures r.None? ==> 0 < |pos| <= ProblemCount && pos[|pos| - 1] <= |ds|
    ensures r.None? ==> Next2(|pos| - 1, ds[pos[|pos| - 1]..]).None?
    ensures r.None? ==> exists ps :: Drawn2(ps, pos, ds)
  {
    var problems;
    problems, pos := Generate2(ds);
    if problems.None? {
      return None, pos;
    }
    return Some(Session.Start(problems.value, false, Empty2)), pos;
  }

  /** `resetPractice` on the 3×3 screen: summary off, no answers, cursor and
      score zero, boxes empty, a new set of problems. The switch is left as
      it was. */
  method ResetPractice3(s: State3, ds: seq<real>) returns (r: Option<State3>, pos: seq<nat>)
    requires Unit(ds)
    ensures r.Some? ==> Drawn3(r.value.problems, pos, ds)
    ensures r.Some? ==> Valid3(r.value) && r.value.current == 0 && r.value.answers == []
    ensures r.Some? ==> r.value.score == 0 && !r.value.showSummary
    ensures r.Some? ==> r.value.userInput == Empty3 && r.value.userInvertible == s.userInvertible
    ensures |ds| >= ProblemCount * MaxDraws3 ==> r.Some?
    ensures r.None? ==> 0 < |pos| <= ProblemCount && pos[|pos| - 1] <= |ds|
    ensures r.None? ==> Next3(|pos| - 1, ds[pos[|pos| - 1]..]).None?
    ensures r.None? ==> exists ps :: Drawn3(ps, pos, ds)
  {
    var problems;
    problems, pos := Generate3(ds);
    if problems.None? {
      return None, pos;
    }
    return Some(Session.Reset(s, problems.value, Empty3)), pos;
  }

  /** `resetPractice` on the 2×2 screen. */
  method ResetPractice2(s: State2, ds: seq<real>) returns (r: Option<State2>, pos: seq<nat>)
    requires Unit(ds)
    ensures r.Some? ==> Drawn2(r.value.problems, pos, ds)
    ensures r.Some? ==> Valid2(r.value) && r.value.current == 0 && r.value.answers == []
    ensures r.Some? ==> r.value.score == 0 && !r.value.showSummary
    ensures r.Some? ==> r.value.userInput == Empty2 && r.value.userInvertible == s.userInvertible
    ensures r.None? ==> 0 < |pos| <= ProblemCount && pos[|pos| - 1] <= |ds|
    ensures r.None? ==> Next2(|pos| - 1, ds[pos[|pos| - 1]..]).None?
    ensures r.None? ==> exists ps :: Drawn2(ps, pos, ds)
  {
    var problems;
    problems, pos := Generate2(ds);
    if problems.None? {
      return None, pos;
    }
    return Some(Session.Reset(s, problems.value, Empty2)), pos;
  }
}
