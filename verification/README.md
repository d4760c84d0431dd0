# Matrix inversion engine of a matrix-drill app

This project models the computational core of a mobile app that teaches and
drills the inversion of 2×2 and 3×3 matrices. Its screens share one engine,
and the model covers it:

- **Determinant and inverse** (`Matrices`): first-row cofactor expansion, the
  2×2 swap/negate rule, and the 3×3 adjugate method. That method builds the
  cofactor matrix, transposes it and divides by the determinant. A zero
  determinant gives no inverse (`null`).
- **Calculators** (`Forms`, `Calculator`): a grid of text boxes read with
  `parseFloat`. The `=` button shows either the inverse or "Matrix is not
  invertible". There is also a Reset button.
- **Problem generator** (`Generator`): ten random matrices with whole entries.
  Each is drawn with entries from −5 to 4. Indices 0, 3, 6 and 9 are
  resampled towards a nonzero determinant: 3×3 for at most 20 retries, 2×2
  without a cap. The other indices are sometimes made singular: on the 3×3
  screen the last row becomes 1, 2 or 3 times the first (entries from −15
  to 12), on the 2×2 screen all four entries become one value from 0 to 4.
  Every problem stores its own determinant and inverse.
- **Grader** (`Grading`): the student's invertible/not-invertible claim is
  compared with `determinant !== 0`. For an invertible matrix the typed cells
  are compared with the stored inverse. The tolerance is 0.01 on the 3×3
  screen and 0.001 on the 2×2 screen.
- **Practice session** (`Session`, `Practice`): `checkAnswer` appends one
  answer, adds one to the score exactly when the answer is correct, then
  advances or shows the summary. `resetPractice` starts a new set.
- `WorkedExamples` states lemmas about the course screen's 2×2 sample
  problem and a whole-number 3×3 case.

Modelling choices:

- Matrix entries are exact `real`s, not IEEE doubles.
  - Every generated matrix has whole entries from −15 to 12, so its
    determinant is a whole number well inside the exactly representable
    range. The practice screens' test `determinant !== 0` therefore behaves
    the same on doubles as on reals.
  - The calculators work on whatever decimals are typed. There `A * D - B * C`
    and the other products round in the app, so their zero test can differ
    from the exact one on near-singular input.
  - The divisions that build every inverse round in the app, and the
    answer checks compare `|a − b| < ε` on doubles.
- `parseFloat` is a parameter `parse: string -> Option<real>`, with `None`
  standing for NaN. A NaN anywhere in the determinant makes it NaN.
  - So an unreadable box always makes the calculators show their
    not-invertible message.
  - On the 3×3 practice screen `parseFloat(x) || 0` becomes `parse(x).GetOr(0.0)`.
  - On the 2×2 practice screen a NaN cell is close to nothing.
- `Math.random()` is a finite sequence of draws in [0, 1). They are consumed
  in the order the screens call it:
  - nine (or four) entries;
  - any retries;
  - then, off the resampled indices, one threshold draw (`> 0.6` for 3×3,
    `> 0.5` for 2×2) and, when it passes, one draw for the multiplier (3×3)
    or the common value (2×2).

  When the sequence runs out, generation yields `None`.
- The React state of a practice screen is one immutable `Session.State`. Each
  handler is a function from state to state.

Some behaviours a reader may not expect; the model follows the code in each:

- The calculators show the same message for an unreadable box (a NaN
  determinant) as for a zero determinant.
- Only the 3×3 practice screen reads a blank answer cell as 0. On the 2×2
  screen a blank cell is never accepted.
- The 2×2 resampling loop has no retry cap.
- `resetPractice` does not reset the invertible switch on either screen.

## Model

| member | source | states |
|---|---|---|
| Matrices.Inverse2 | screens/TwoByTwoPractice.js:50-58 | the stored 2×2 inverse is absent exactly when `a·d − b·c` is zero |
| Matrices.Inverse3 | screens/ThreeByThreePractice.js:63-96 | the 3×3 inverse is `null` exactly when the first-row determinant is zero |
| Matrices.Det3IsLeibniz | screens/ThreeByThreePractice.js:57-60 | the first-row cofactor expansion equals the six-term Leibniz sum, an independent definition of the determinant |
| Matrices.Det3Transpose | screens/ThreeByThreePractice.js:57-60 | the determinant of the transpose is the determinant |
| Matrices.Det2Product | screens/TwoByTwoPractice.js:50 | the 2×2 determinant of a product is the product of the determinants |
| Matrices.AdjugateProduct3 | screens/ThreeByThreePractice.js:70-93 | the transposed cofactor matrix times the matrix, on either side, is det·I |
| Matrices.InverseRight3 | screens/ThreeByThreePractice.js:63-96 | whenever an inverse is returned, M times it is the identity |
| Matrices.InverseLeft3 | screens/ThreeByThreePractice.js:63-96 | whenever an inverse is returned, it times M is the identity |
| Matrices.InverseIsTwoSided3 | screens/ThreeByThreePractice.js:63-96 | the adjugate divided by the determinant is a two-sided inverse |
| Matrices.InverseIsTwoSided2 | screens/TwoByTwoPractice.js:53-58 | `[[d, −b], [−c, a]] / det` is a two-sided inverse of [[a, b], [c, d]] |
| Matrices.SingularHasNoInverse3 | screens/ThreeByThreePractice.js:67 | a 3×3 matrix with zero determinant has no right inverse at all, so returning `null` loses nothing |
| Matrices.SingularHasNoInverse2 | screens/TwoByTwoPractice.js:53 | a 2×2 matrix with zero determinant has no right inverse |
| Matrices.InvertibleIff3 | screens/ThreeByThreePractice.js:65-67 | the 3×3 inverse is produced if and only if some matrix X has M·X = I |
| Matrices.InvertibleIff2 | screens/TwoByTwoPractice.js:50-58 | the 2×2 inverse is produced if and only if some matrix X has M·X = I |
| Forms.Read2 | screens/TwoByTwo.js:18-19 | the four boxes read as a matrix exactly when each parses, and each entry is its box's number |
| Forms.Read3 | screens/ThreeByThree.js:22-25 | the nine boxes read as a matrix exactly when each parses, and each entry is its box's number, in row-major order |
| Calculator.Initial2 | screens/TwoByTwo.js:14-15 | the 2×2 calculator opens with four empty boxes and no result |
| Calculator.Initial3 | screens/ThreeByThree.js:14-19 | the 3×3 calculator opens with nine empty boxes and no result |
| Calculator.Calculate2 | screens/TwoByTwo.js:17-33 | `=` always shows something; the message appears exactly when a box is NaN or the determinant is zero; a shown matrix is a two-sided inverse of the one typed |
| Calculator.Calculate3 | screens/ThreeByThree.js:21-46 | the same for the 3×3 screen, with the hand-written adjugate |
| Calculator.HandWrittenAdjugate | screens/ThreeByThree.js:37-41 | the calculator's cell-by-cell adjugate equals the transposed cofactor matrix of the practice screen |
| Calculator.CalculatorsAgree | screens/ThreeByThree.js:32-44 | each calculator shows an inverse if and only if every box parses and the matrix has an inverse; what it shows is the engine's inverse |
| Calculator.Press2 | screens/TwoByTwo.js:17-33 | `=` keeps the boxes and shows a result: the message exactly when a box is NaN or the determinant is zero, otherwise a two-sided inverse of the typed matrix |
| Calculator.Press3 | screens/ThreeByThree.js:21-46 | the same for the 3×3 screen's `=` |
| Calculator.Type2 | screens/TwoByTwo.js:55 | typing changes only the box typed into and leaves the result on display |
| Calculator.Type3 | screens/ThreeByThree.js:64 | typing changes only the box typed into and leaves the result on display |
| Calculator.Reset2 | screens/TwoByTwo.js:35-38 | Reset returns the 2×2 calculator to its opening state from any state |
| Calculator.Reset3 | screens/ThreeByThree.js:48-55 | Reset returns the 3×3 calculator to its opening state from any state |
| Calculator.EqualsAfterReset | screens/TwoByTwo.js:35-38 | pressing `=` right after Reset shows the message, since an empty box is NaN |
| Generator.Entry | screens/ThreeByThreePractice.js:102 | `Math.floor(Math.random() * 10) - 5` is a whole number from −5 to 4 |
| Generator.Factor | screens/ThreeByThreePractice.js:125 | the row multiplier is a whole number from 1 to 3 |
| Generator.Common | screens/TwoByTwoPractice.js:46 | the common 2×2 value is a whole number from 0 to 4 |
| Generator.Sample3 | screens/ThreeByThreePractice.js:101-105 | a fresh 3×3 matrix takes exactly nine draws, one per entry in row-major order |
| Generator.Sample2 | screens/TwoByTwoPractice.js:29-32 | a fresh 2×2 matrix takes exactly four draws, for a, b, c, d |
| Generator.Resample3 | screens/ThreeByThreePractice.js:108-120 | the loop ends with a nonzero determinant or after exactly 20 retries; a nonsingular start is kept; each retry uses nine draws |
| Generator.Resample2 | screens/TwoByTwoPractice.js:35-42 | the uncapped loop ends only with a nonzero determinant; an invertible start is kept; each retry uses four draws |
| Generator.Resample2Trace | screens/TwoByTwoPractice.js:37-42 | with t the number of retries the loop used 4t draws and ends with its start when t is 0, and otherwise with block t − 1 of the stream, the start and every earlier block having a zero determinant |
| Generator.Resample2Dry | screens/TwoByTwoPractice.js:35-42 | the uncapped loop fails only by running dry, and then its start and every four-draw block of the remaining stream were singular |
| Generator.Collapse3 | screens/ThreeByThreePractice.js:122-127 | the first two rows are kept; the result is always singular, so no inverse is stored; a whole multiplier keeps every entry whole |
| Generator.Next3 | screens/ThreeByThreePractice.js:100-138 | problem k stores id k+1, its own determinant and inverse; on an index divisible by 3 a singular result used all 189 draws; elsewhere a threshold draw above 0.6 gives a singular matrix, and eleven draws always suffice; a failure means fewer than 189 draws were left |
| Generator.Resample3Trace | screens/ThreeByThreePractice.js:112-120 | the loop ends with its start when it made no retry, and otherwise with the last nine-draw block it drew, the start and every earlier block having a zero determinant |
| Generator.Next3Trace | screens/ThreeByThreePractice.js:101-120 | on an index divisible by 3, with t the number of retries, the problem used 9t + 9 draws, its matrix is block t of the stream, every earlier block was singular, and a singular matrix means t is 20 |
| Generator.Next3Dry | screens/ThreeByThreePractice.js:101-120 | on an index divisible by 3, a singular problem means at least 189 draws were there and all 21 matrices drawn, the first and the 20 retries, were singular |
| Generator.Next3Kept | screens/ThreeByThreePractice.js:101-112 | on an index divisible by 3, a nonsingular first matrix is the problem, with its own determinant and inverse, and only its nine draws are used |
| Generator.Next3Off | screens/ThreeByThreePractice.js:101-127 | off the indices divisible by 3: fewer than ten draws fail; a tenth draw at or below 0.6 gives exactly the first nine draws' matrix and leaves the draws after the tenth; above 0.6 it gives exactly the collapse of that matrix by the eleventh draw's factor and leaves the draws after the eleventh, or fails when there is no eleventh |
| Generator.Next2 | screens/TwoByTwoPractice.js:28-65 | problem k stores id k+1, its own determinant and inverse; on an index divisible by 3 it is always invertible; elsewhere a threshold draw above 0.5 gives a singular matrix, and six draws always suffice |
| Generator.Next2Dry | screens/TwoByTwoPractice.js:29-42 | an always-invertible 2×2 problem fails only when every four-draw block of the stream is singular |
| Generator.Next2Trace | screens/TwoByTwoPractice.js:29-42 | on an index divisible by 3, with t the number of retries, the problem used 4t + 4 draws, its matrix is block t of the stream, and every earlier block was singular |
| Generator.Next2Off | screens/TwoByTwoPractice.js:29-48 | off the indices divisible by 3: fewer than five draws fail; a fifth draw at or below 0.5 gives exactly the first four draws' matrix and leaves the draws after the fifth; above 0.5 it gives exactly [[v, v], [v, v]] with v = floor(5 × the sixth draw) and leaves the draws after the sixth, or fails when there is no sixth |
| Generator.DrawnPolicy3 | screens/ThreeByThreePractice.js:107-127 | in a set drawn from the stream, a singular problem 1, 4, 7 or 10 used all 189 draws of its retries; elsewhere the problem's tenth draw decides: at or below 0.6 the problem is its first nine draws and uses ten, above 0.6 it is their collapse by the eleventh draw's factor, uses eleven and is singular |
| Generator.DrawnPolicy2 | screens/TwoByTwoPractice.js:34-48 | in a set drawn from the stream, problems 1, 4, 7 and 10 are invertible; elsewhere the problem's fifth draw decides: at or below 0.5 the problem is its first four draws and uses five, above 0.5 all four entries are floor(5 × the sixth draw), it uses six and is singular |
| Generator.Generate3 | screens/ThreeByThreePractice.js:98-141 | ten problems, problem k being what `Next3` draws from where problem k − 1 stopped, each storing id k + 1 and its own determinant and inverse; 1890 draws always suffice; a failure returns the starts of the problems drawn so far, they are problems Next3 drew in turn, and the next problem's draw fails there |
| Generator.Generate2 | screens/TwoByTwoPractice.js:26-68 | ten problems, problem k being what `Next2` draws from where problem k − 1 stopped, each storing its own determinant and inverse; problems 1, 4, 7 and 10 are invertible; a failure returns the starts of the problems drawn so far, they are problems Next2 drew in turn, and the next problem's draw fails there |
| Grading.Abs | screens/ThreeByThreePractice.js:147 | `Math.abs` is non-negative and is x or −x |
| Grading.StoredIsGradable | screens/ThreeByThreePractice.js:130-131 | every generated problem with a nonzero determinant carries an inverse to compare against |
| Grading.Judge3 | screens/ThreeByThreePractice.js:143-167 | a wrong claim is a wrong classification; a singular matrix claimed singular is correct; otherwise the answer is accepted if and only if all nine cells, blank read as 0, are strictly within 0.01 |
| Grading.Judge2 | screens/TwoByTwoPractice.js:70-90 | the same three-way verdict, with all four cells parsed and strictly within 0.001 |
| Grading.ExactAnswerAccepted | screens/ThreeByThreePractice.js:161-165 | typing the stored inverse exactly with the invertible claim is accepted on both screens |
| Grading.OneCellOff3 | screens/ThreeByThreePractice.js:161-165 | one 3×3 cell off by 0.01 or more makes the answer incorrect |
| Grading.OneCellOff2 | screens/TwoByTwoPractice.js:84-88 | one 2×2 cell off by 0.001 or more makes the answer incorrect |
| Grading.BlankCellRejected2 | screens/TwoByTwoPractice.js:85 | on the 2×2 screen an unreadable cell can only be correct through the "not invertible" claim on a singular matrix |
| Grading.BlankCellIsZero3 | screens/ThreeByThreePractice.js:155-159 | on the 3×3 screen an unreadable cell is judged exactly as if 0 were typed there |
| Grading.ClaimDecides | screens/ThreeByThreePractice.js:151-153 | for a singular matrix the verdict depends only on the claim; a claim that contradicts the determinant is always incorrect |
| Session.Start | screens/ThreeByThreePractice.js:18-28 | a new session is on problem 0 with no answers, score 0, the summary hidden and the boxes empty |
| Session.Submit | screens/ThreeByThreePractice.js:169-191 | exactly one answer record is appended, earlier ones kept; the score rises by one exactly when correct; before the last problem it advances and clears the boxes and switch, on the last it shows the summary |
| Session.Reset | screens/ThreeByThreePractice.js:194-201 | reset is a fresh start over the new problems that keeps the switch position |
| Session.CountCorrectAppend | screens/ThreeByThreePractice.js:183 | counting correct answers over one more answer adds its verdict |
| Session.SubmitConsistent | screens/ThreeByThreePractice.js:169-191 | after a submit the score still counts the correct answers, there is one answer per problem passed, and the cursor stays on a problem |
| Session.Run | screens/TwoByTwoPractice.js:106-114 | a run of submissions keeps the session consistent, keeps the earlier answers and appends one answer per verdict carrying it, and raises the score by the number correct |
| Session.PassedCountsCorrect | screens/TwoByTwoPractice.js:108 | counting correct verdicts from the front agrees with counting correct answers from the back |
| Session.RunCountsCorrect | screens/TwoByTwoPractice.js:106-114 | the answers a run appends hold exactly as many correct ones as the score rose by |
| Session.FullRunShowsSummary | screens/TwoByTwoPractice.js:108-114 | answering every remaining problem ends on the summary with the score raised by the number correct |
| Practice.Submit3 | screens/ThreeByThreePractice.js:143-192 | the 3×3 `checkAnswer` keeps the session valid, records one answer, and raises the score exactly when the claim matches and, if invertible, every cell is within 0.01 |
| Practice.Submit2 | screens/TwoByTwoPractice.js:70-115 | the 2×2 `checkAnswer` keeps the session valid, records one answer, and raises the score exactly when the claim matches and, if invertible, every cell parses and is within 0.001 |
| Practice.Open3 | screens/ThreeByThreePractice.js:52-54 | opening the 3×3 screen yields a valid session on the set drawn from the stream, score 0, switch off; 1890 draws always suffice; a failure returns the starts of the problems drawn so far, and the next problem's draw fails there |
| Practice.Open2 | screens/TwoByTwoPractice.js:22-24 | opening the 2×2 screen yields a valid session on the set drawn from the stream, score 0, switch off; a failure returns the starts of the problems drawn so far, and the next problem's draw fails there |
| Practice.ResetPractice3 | screens/ThreeByThreePractice.js:194-201 | `resetPractice` yields a valid session on the new set drawn from the stream, with score 0 and empty boxes, keeping the switch; a failure returns the starts of the problems drawn so far, and the next problem's draw fails there |
| Practice.ResetPractice2 | screens/TwoByTwoPractice.js:117-124 | `resetPractice` yields a valid session on the new set drawn from the stream, with score 0 and empty boxes, keeping the switch; a failure returns the starts of the problems drawn so far, and the next problem's draw fails there |
| WorkedExamples.CourseWorkedExample | screens/InverseMatricesCourse.js:144-196 | det [[2, 1], [5, 3]] = 1 and its inverse is the course's [[3, −1], [−5, 2]] |
| WorkedExamples.HandComputedCases | screens/TwoByTwoPractice.js:50-58 | det [[1, 1], [1.5, 4]] = 2.5 with its inverse; [[1, 2], [2, 4]] has none |
| WorkedExamples.CalculatorOnCourseExample | screens/TwoByTwo.js:17-33 | the 2×2 calculator shows the course's inverse, and the message when a box is not a number |
| WorkedExamples.GradingCourseExample | screens/TwoByTwoPractice.js:84-88 | the exact answer is accepted; 2.1 in place of 2, or a blank box, is rejected; the "not invertible" claim is a wrong classification |
| WorkedExamples.UnitDeterminantInverse | screens/ThreeByThreePractice.js:89-93 | with determinant 1 the inverse is the adjugate itself |
| WorkedExamples.ThreeByThreeExample | screens/ThreeByThreePractice.js:63-96 | [[1, 2, 3], [0, 1, 4], [5, 6, 0]] has determinant 1 and the whole-number inverse [[−24, 18, 5], [20, −15, −4], [−5, 4, 1]] |
| WorkedExamples.CollapsedExample | screens/ThreeByThreePractice.js:123-127 | making that matrix's last row twice its first leaves no inverse |

## Left out

- Rendering, styling, animation, navigation, and the home, loading and course screens: these are presentation, not the engine.
- IEEE-754 doubles: the model uses exact reals. Rounding in the inverse's divisions, `-0`, and `Infinity` from `parseFloat` are not modelled.
- Calculator.Calculate2: tests the determinant for zero exactly. The app computes it in doubles from typed decimals, so on near-singular input the two can differ.
- Calculator.Calculate3: tests the determinant for zero exactly, with the same caveat as the 2×2 screen.
- Grading.Judge3: compares `|a − b| < 0.01` exactly. The app compares rounded doubles, so an answer at the boundary can be judged differently.
- Grading.Judge2: compares `|a − b| < 0.001` exactly, with the same caveat.
- `parseFloat` itself is a parameter. Which strings it accepts is left to the caller.
- `Math.random()` is a finite sequence of draws. The app's generator cannot run out of randomness. The model's yields `None` when the draws run out, and this also bounds the uncapped 2×2 loop.
- The time before the first set is generated, when `problems` is empty, is not modelled. `Practice.Open3` and `Practice.Open2` start from a generated set.
- `formatNumber`, the summary's percentages and the review list read `answers` and `score` only for display.
- Generator.Resample2: its own contract does not say which block the loop ends with. Generator.Resample2Trace states that, as a separate lemma, to keep the recursive function's contract small.
- Generator.Next2: its own contract does not tie the matrix to the draws. Generator.Next2Trace does so on the indices divisible by 3, and Generator.Next2Off elsewhere.
- Generator.Next3: its own contract states only the singular side of the off-index branch. Generator.Next3Off states both branches exactly, and Generator.Next3Trace and Generator.Next3Kept state the retry loop's result.
- Generator.Generate2: states no success bound for a long enough stream, because the 2×2 loop has no cap.
- The practice screens' switch (`onValueChange`) and answer boxes (`onChangeText`) are single field updates of the React state, not engine operations. The calculators' boxes are modelled (`Calculator.Type2`, `Calculator.Type3`) because there the typed boxes are the whole input state and typing leaves the last result on display until `=` is pressed again; on the practice screens nothing reads the boxes before Submit, which is modelled.
- Session.Submit: the answer record holds the whole problem instead of copies of its matrix, determinant and inverse. The 2×2 screen's question string is one rendering of that matrix.
