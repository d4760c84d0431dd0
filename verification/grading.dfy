/** `checkAnswer`'s verdict on one practice problem. The student claims the
    matrix is invertible or not (the switch) and, if invertible, types the
    inverse into the answer boxes. */
module Grading {
  import opened Wrappers
  import opened Matrices
  import opened Forms
  import opened Generator

  /** How an answer was judged: the claim disagreed with `determinant !== 0`;
      the matrix is singular and the student said so; or the matrix is
      invertible, the student said so, and the typed cells were compared
      with the stored inverse. */
  datatype Verdict = WrongClassification | CorrectlySingular | ToleranceMatch(within: bool)

  /** `isCorrect` as the screens record it. */
  predicate IsCorrect(v: Verdict) {
    v.CorrectlySingular? || (v.ToleranceMatch? && v.within)
  }

  /** The `epsilon` of each screen's `nearlyEqual`. */
  const Tolerance3: real := 0.01
  const Tolerance2: real := 0.001

  function Abs(x: real): (r: real)
    ensures r >= 0.0 && (r == x || r == -x)
  {
    if x < 0.0 then -x else x
  }

  /** `Math.abs(a - b) < epsilon`: strictly closer than the tolerance. */
  predicate NearlyEqual(x: real, y: real, eps: real) {
    Abs(x - y) < eps
  }

  /** `parseFloat(text) || 0`: the 3×3 screen reads a blank or unreadable
      box as 0. */
  function ReadOrZero(text: string, parse: string -> Option<real>): (x: real)
    ensures parse(text).Some? ==> x == parse(text).value
    ensures parse(text).None? ==> x == 0.0
  {
    parse(text).GetOr(0.0)
  }

  /** The stored problem carries an inverse whenever its determinant is
      nonzero, as every generated problem does; `checkAnswer` reads it then. */
  predicate Gradable3(p: Problem3) {
    p.determinant != 0.0 ==> p.correctInverse.Some?
  }

  predicate Gradable2(p: Problem2) {
    p.determinant != 0.0 ==> p.correctInverse.Some?
  }

  /** Every generated problem can be graded. */
  lemma StoredIsGradable(p3: Problem3, p2: Problem2, k: nat)
    ensures Stored3(p3, k) ==> Gradable3(p3)
    ensures Stored2(p2, k) ==> Gradable2(p2)
  {
  }

  /** The 3×3 screen's test: every one of the nine cells, read with the
      fallback to 0, is within 0.01 of the stored inverse. */
  predicate Within3(input: Form3, inv: M3, parse: string -> Option<real>) {
    forall r, c :: 0 <= r < 3 && 0 <= c < 3 ==>
      NearlyEqual(ReadOrZero(input[3 * r + c], parse), At3(inv, r, c), Tolerance3)
  }

  /** `nearlyEqual(parseFloat(text), x)` on the 2×2 screen, where the
      tolerance is 0.001 and NaN is close to nothing. */
  predicate Close2(cell: Option<real>, x: real) {
    cell.Some? && NearlyEqual(cell.value, x, Tolerance2)
  }

  /** `checkAnswer`'s verdict on the 3×3 screen. */
  function Judge3(p: Problem3, claim: bool, input: Form3, parse: string -> Option<real>): (v: Verdict)
    requires Gradable3(p)
    ensures v.WrongClassification? <==> claim != (p.determinant != 0.0)
    ensures v.CorrectlySingular? <==> !claim && p.determinant == 0.0
    ensures v.ToleranceMatch? <==> claim && p.determinant != 0.0
    ensures v.ToleranceMatch? ==>
              (v.within <==> forall k :: 0 <= k < 9 ==>
                 Abs(ReadOrZero(input[k], parse) - At3(p.correctInverse.value, k / 3, k % 3)) < Tolerance3)
  {
    var isInvertible := p.determinant != 0.0;
    if claim != isInvertible then WrongClassification
    else if !isInvertible then CorrectlySingular
    else
      var ok := Within3(input, p.correctInverse.value, parse);
      assert ok <==> forall k :: 0 <= k < 9 ==>
        Abs(ReadOrZero(input[k], parse) - At3(p.correctInverse.value, k / 3, k % 3)) < Tolerance3 by {
        if ok {
          forall k | 0 <= k < 9
            ensures Abs(ReadOrZero(input[k], parse) - At3(p.correctInverse.value, k / 3, k % 3)) < Tolerance3
          {
            var r, c := k / 3, k % 3;
            assert 3 * r + c == k;
            assert NearlyEqual(ReadOrZero(input[3 * r + c], parse), At3(p.correctInverse.value, r, c), Tolerance3);
          }
        }
        if forall k :: 0 <= k < 9 ==>
             Abs(ReadOrZero(input[k], parse) - At3(p.correctInverse.value, k / 3, k % 3)) < Tolerance3 {
          forall r, c | 0 <= r < 3 && 0 <= c < 3
            ensures NearlyEqual(ReadOrZero(input[3 * r + c], parse), At3(p.correctInverse.value, r, c), Tolerance3)
          {
            var k := 3 * r + c;
            assert k / 3 == r && k % 3 == c;
          }
        }
      }
      ToleranceMatch(ok)
  }

  /** `checkAnswer`'s verdict on the 2×2 screen. */
  function Judge2(p: Problem2, claim: bool, input: Form2, parse: string -> Option<real>): (v: Verdict)
    requires Gradable2(p)
    ensures v.WrongClassification? <==> claim != (p.determinant != 0.0)
    ensures v.CorrectlySingular? <==> !claim && p.determinant == 0.0
    ensures v.ToleranceMatch? <==> claim && p.determinant != 0.0
    ensures v.ToleranceMatch? ==>
              (v.within <==> forall k :: 0 <= k < 4 ==>
                 parse(input[k]).Some? && Abs(parse(input[k]).value - At2(p.correctInverse.value, k / 2, k % 2)) < Tolerance2)
  {
    var isInvertible := p.determinant != 0.0;
    if claim != isInvertible then WrongClassification
    else if !isInvertible then CorrectlySingular
    else
      var inv := p.correctInverse.value;
      var ok := Close2(parse(input[0]), inv.a) && Close2(parse(input[1]), inv.b)
             && Close2(parse(input[2]), inv.c) && Close2(parse(input[3]), inv.d);
      assert ok <==> forall k :: 0 <= k < 4 ==> Close2(parse(input[k]), At2(inv, k / 2, k % 2)) by {
        assert At2(inv, 0, 0) == inv.a && At2(inv, 0, 1) == inv.b;
        assert At2(inv, 1, 0) == inv.c && At2(inv, 1, 1) == inv.d;
      }
      ToleranceMatch(ok)
  }

  // ---------------------------------------------------------------------------
  // What the verdicts mean for a student

  /** Typing the stored inverse exactly, with the invertible claim, is
      always accepted, on either screen. */
  lemma ExactAnswerAccepted(p3: Problem3, in3: Form3, p2: Problem2, in2: Form2, parse: string -> Option<real>)
    requires Gradable3(p3) && p3.determinant != 0.0
    requires forall k :: 0 <= k < 9 ==> parse(in3[k]) == Some(At3(p3.correctInverse.value, k / 3, k % 3))
    requires Gradable2(p2) && p2.determinant != 0.0
    requires forall k :: 0 <= k < 4 ==> parse(in2[k]) == Some(At2(p2.correctInverse.value, k / 2, k % 2))
    ensures IsCorrect(Judge3(p3, true, in3, parse))
    ensures IsCorrect(Judge2(p2, true, in2, parse))
  {
  }

  /** A single 3×3 cell off by the tolerance or more sinks the answer. */
  lemma OneCellOff3(p: Problem3, input: Form3, parse: string -> Option<real>, k: nat)
    requires Gradable3(p) && k < 9
    requires Abs(ReadOrZero(input[k], parse) - At3(p.correctInverse.GetOr(Identity3), k / 3, k % 3)) >= Tolerance3
    ensures !IsCorrect(Judge3(p, true, input, parse))
  {
  }

  /** A single 2×2 cell off by the tolerance or more sinks the answer. */
  lemma OneCellOff2(p: Problem2, input: Form2, parse: string -> Option<real>, k: nat)
    requires Gradable2(p) && k < 4
    requires parse(input[k]).Some?
    requires Abs(parse(input[k]).value - At2(p.correctInverse.GetOr(Identity2), k / 2, k % 2)) >= Tolerance2
    ensures !IsCorrect(Judge2(p, true, input, parse))
  {
  }

  /** On the 2×2 screen a blank or unreadable cell is never accepted, since
      NaN is not close to anything. */
  lemma BlankCellRejected2(p: Problem2, claim: bool, input: Form2, parse: string -> Option<real>, k: nat)
    requires Gradable2(p) && k < 4
    requires parse(input[k]).None?
    ensures IsCorrect(Judge2(p, claim, input, parse)) ==> !claim && p.determinant == 0.0
  {
  }

  /** On the 3×3 screen a blank or unreadable cell counts as 0: the answer
      stands or falls as if 0 had been typed there. */
  lemma BlankCellIsZero3(p: Problem3, claim: bool, input: Form3, parse: string -> Option<real>, k: nat)
    requires Gradable3(p) && k < 9
    requires parse(input[k]).None? && parse("0") == Some(0.0)
    ensures Judge3(p, claim, input, parse) == Judge3(p, claim, input[k := "0"], parse)
  {
    var v, w := Judge3(p, claim, input, parse), Judge3(p, claim, input[k := "0"], parse);
    if v.ToleranceMatch? {
      forall j | 0 <= j < 9 ensures ReadOrZero(input[j], parse) == ReadOrZero(input[k := "0"][j], parse) {
      }
    }
  }

  /** Saying "not invertible" about a singular matrix is correct whatever is
      in the boxes, and a wrong claim is incorrect whatever is in them. */
  lemma ClaimDecides(p3: Problem3, in3: Form3, p2: Problem2, in2: Form2, claim: bool, parse: string -> Option<real>)
    requires Gradable3(p3) && Gradable2(p2)
    ensures p3.determinant == 0.0 ==> (IsCorrect(Judge3(p3, claim, in3, parse)) <==> !claim)
    ensures p2.determinant == 0.0 ==> (IsCorrect(Judge2(p2, claim, in2, parse)) <==> !claim)
    ensures claim != (p3.determinant != 0.0) ==> !IsCorrect(Judge3(p3, claim, in3, parse))
    ensures claim != (p2.determinant != 0.0) ==> !IsCorrect(Judge2(p2, claim, in2, parse))
  {
  }
}
