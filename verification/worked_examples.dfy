/** Concrete cases. The course screen's 2×2 sample problem goes through the
    inverse rule, the calculator and `checkAnswer`; a 3×3 matrix with
    determinant 1 has a whole-number inverse. */
module WorkedExamples {
  import opened Wrappers
  import opened Matrices
  import opened Forms
  import opened Calculator
  import opened Generator
  import opened Grading

  /** The course's matrix A = [[2, 1], [5, 3]]. */
  const A: M2 := M2(2.0, 1.0, 5.0, 3.0)

  /** The inverse the course arrives at: [[3, −1], [−5, 2]]. */
  const AInverse: M2 := M2(3.0, -1.0, -5.0, 2.0)

  /** det(A) = 6 − 5 = 1, and the swap/negate rule gives the course's answer,
      which multiplies back to the identity. */
  lemma CourseWorkedExample()
    ensures Det2(A) == 1.0
    ensures Inverse2(A) == Some(AInverse)
    ensures Mul2(A, AInverse) == Identity2 && Mul2(AInverse, A) == Identity2
  {
  }

  /** A reading of the four strings used below, as `parseFloat` reads them. */
  function Numbers(text: string): Option<real> {
    if text == "2" then Some(2.0)
    else if text == "1" then Some(1.0)
    else if text == "5" then Some(5.0)
    else if text == "3" then Some(3.0)
    else if text == "-1" then Some(-1.0)
    else if text == "-5" then Some(-5.0)
    else if text == "2.1" then Some(2.1)
    else None
  }

  /** Typing A into the 2×2 calculator shows the course's inverse; one box
      that is not a number shows the message instead. */
  lemma CalculatorOnCourseExample()
    ensures Calculate2(["2", "1", "5", "3"], Numbers) == Shown(AInverse)
    ensures Calculate2(["2", "1", "five", "3"], Numbers) == NotInvertible
  {
    assert Read2(["2", "1", "5", "3"], Numbers) == Some(A);
  }

  /** Two more hand-computed cases: det [[1, 1], [1.5, 4]] = 4 − 1.5 = 2.5,
      and [[1, 2], [2, 4]], whose rows are proportional, has no inverse. */
  lemma HandComputedCases()
    ensures Det2(M2(1.0, 1.0, 1.5, 4.0)) == 2.5
    ensures Inverse2(M2(1.0, 2.0, 2.0, 4.0)) == None
    ensures Inverse2(M2(1.0, 1.0, 1.5, 4.0)) == Some(M2(1.6, -0.4, -0.6, 0.4))
  {
  }

  /** A as problem 1 of a 2×2 set. */
  const CourseProblem: Problem2 := Problem2(1, A, 1.0, Some(AInverse))

  /** Answering the course's inverse is graded correct; 2.1 in the last box is
      off by 0.1, more than the 0.001 allowed, and so is a blank box; saying
      "not invertible" is a wrong classification. */
  lemma GradingCourseExample()
    ensures Stored2(CourseProblem, 0)
    ensures IsCorrect(Judge2(CourseProblem, true, ["3", "-1", "-5", "2"], Numbers))
    ensures !IsCorrect(Judge2(CourseProblem, true, ["3", "-1", "-5", "2.1"], Numbers))
    ensures !IsCorrect(Judge2(CourseProblem, true, ["3", "-1", "-5", ""], Numbers))
    ensures Judge2(CourseProblem, false, ["", "", "", ""], Numbers) == WrongClassification
  {
    CourseWorkedExample();
    assert IntegralM2(A) by {
      assert At2(A, 0, 0) == 2.0 && At2(A, 0, 1) == 1.0 && At2(A, 1, 0) == 5.0 && At2(A, 1, 1) == 3.0;
    }
  }

  /** A 3×3 matrix of determinant 1, so its inverse has whole entries. */
  const B: M3 := M3(1.0, 2.0, 3.0, 0.0, 1.0, 4.0, 5.0, 6.0, 0.0)
  const BInverse: M3 := M3(-24.0, 18.0, 5.0, 20.0, -15.0, -4.0, -5.0, 4.0, 1.0)

  lemma BDeterminant()
    ensures Det3(B) == 1.0
  {
  }

  lemma BAdjugate()
    ensures Adjugate3(B) == BInverse
  {
  }

  /** With determinant 1 the inverse is the adjugate itself. */
  lemma UnitDeterminantInverse(m: M3)
    requires Det3(m) == 1.0
    ensures Inverse3(m) == Some(Adjugate3(m))
  {
    var p := Adjugate3(m);
    assert Div3(p, 1.0) == p;
  }

  /** det(B) = 1, so B's inverse is its adjugate. */
  lemma ThreeByThreeExample()
    ensures Det3(B) == 1.0
    ensures Inverse3(B) == Some(BInverse)
  {
    BDeterminant();
    BAdjugate();
    UnitDeterminantInverse(B);
  }

  /** Making B's last row twice its first, as the generator's collapse does,
      leaves nothing to invert. */
  lemma CollapsedExample()
    ensures Det3(Collapse3(B, 2.0)) == 0.0
    ensures Inverse3(Collapse3(B, 2.0)) == None
  {
  }
}
