/** The practice screens' problem sets: ten random matrices, every third one
    (indices 0, 3, 6, 9) pushed towards invertible, the others sometimes made
    singular on purpose. `Math.random()` is replaced by a finite stream of
    draws in [0, 1), consumed in the order the screens call it; a stream that
    runs dry yields None. */
module Generator {
  import opened Wrappers
  import opened Matrices

  /** The number of problems in a set. */
  const ProblemCount: nat := 10

  /** The number of extra 3×3 matrices drawn before giving up on a nonzero
      determinant. */
  const MaxAttempts: nat := 20

  /** A problem as stored by the 3×3 screen: its 1-based id, the matrix, its
      determinant and its inverse (None for `null`). */
  datatype Problem3 = Problem3(id: int, matrix: M3, determinant: real, correctInverse: Option<M3>)

  /** A problem as stored by the 2×2 screen. */
  datatype Problem2 = Problem2(id: int, matrix: M2, determinant: real, correctInverse: Option<M2>)

  /** Every draw is a possible value of `Math.random()`. */
  predicate Unit(ds: seq<real>) {
    forall k :: 0 <= k < |ds| ==> 0.0 <= ds[k] < 1.0
  }

  /** `rest` is what is left of `ds` after some draws were taken from its front. */
  predicate Suffix(rest: seq<real>, ds: seq<real>) {
    |rest| <= |ds| && rest == ds[|ds| - |rest|..]
  }

  lemma SuffixTrans(r2: seq<real>, r1: seq<real>, ds: seq<real>)
    requires Suffix(r2, r1) && Suffix(r1, ds)
    ensures Suffix(r2, ds)
  {
    assert ds[|ds| - |r1|..][|r1| - |r2|..] == ds[|ds| - |r2|..];
  }

  lemma SuffixUnit(rest: seq<real>, ds: seq<real>)
    requires Suffix(rest, ds) && Unit(ds)
    ensures Unit(rest)
  {
    forall k | 0 <= k < |rest| ensures 0.0 <= rest[k] < 1.0 {
      assert rest[k] == ds[|ds| - |rest| + k];
    }
  }

  predicate Integral(x: real) {
    x == x.Floor as real
  }

  /** Every entry is a whole number, as all generated matrices are; their
      determinants are then whole numbers too and exact in floating point. */
  predicate IntegralM3(m: M3) {
    forall r, c :: 0 <= r < 3 && 0 <= c < 3 ==> Integral(At3(m, r, c))
  }

  predicate IntegralM2(m: M2) {
    forall r, c :: 0 <= r < 2 && 0 <= c < 2 ==> Integral(At2(m, r, c))
  }

  /** `Math.floor(Math.random() * 10) - 5`: a whole number from −5 to 4. */
  function Entry(r: real): (e: real)
    requires 0.0 <= r < 1.0
    ensures -5.0 <= e <= 4.0 && Integral(e)
  {
    ((r * 10.0).Floor - 5) as real
  }

  /** `Math.floor(Math.random() * 3) + 1`: the multiplier 1, 2 or 3 used to
      make the last row of a 3×3 matrix a multiple of the first. */
  function Factor(r: real): (v: real)
    requires 0.0 <= r < 1.0
    ensures 1.0 <= v <= 3.0 && Integral(v)
  {
    ((r * 3.0).Floor + 1) as real
  }

  /** `Math.floor(Math.random() * 5)`: the common value 0..4 of a 2×2 matrix
      made singular. */
  function Common(r: real): (v: real)
    requires 0.0 <= r < 1.0
    ensures 0.0 <= v <= 4.0 && Integral(v)
  {
    (r * 5.0).Floor as real
  }

  /** Nine fresh entries, row by row, from the front of the stream. */
  function Sample3(ds: seq<real>): (r: Option<(M3, seq<real>)>)
    requires Unit(ds)
    ensures r.Some? <==> |ds| >= 9
    ensures r.Some? ==> r.value.1 == ds[9..] && IntegralM3(r.value.0)
    ensures r.Some? ==> forall k :: 0 <= k < 9 ==> At3(r.value.0, k / 3, k % 3) == Entry(ds[k])
  {
    if |ds| < 9 then None
    else
      var m := M3(Entry(ds[0]), Entry(ds[1]), Entry(ds[2]),
                  Entry(ds[3]), Entry(ds[4]), Entry(ds[5]),
                  Entry(ds[6]), Entry(ds[7]), Entry(ds[8]));
      Some((m, ds[9..]))
  }

  /** Four fresh entries a, b, c, d from the front of the stream. */
  function Sample2(ds: seq<real>): (r: Option<(M2, seq<real>)>)
    requires Unit(ds)
    ensures r.Some? <==> |ds| >= 4
    ensures r.Some? ==> r.value.1 == ds[4..] && IntegralM2(r.value.0)
    ensures r.Some? ==> forall k :: 0 <= k < 4 ==> At2(r.value.0, k / 2, k % 2) == Entry(ds[k])
  {
    if |ds| < 4 then None
    else Some((M2(Entry(ds[0]), Entry(ds[1]), Entry(ds[2]), Entry(ds[3])), ds[4..]))
  }

  /** The 3×3 retry loop: while the determinant is zero and fewer than 20
      retries were made, draw a whole new matrix. It stops with a nonzero
      determinant or after exactly 20 retries, having used nine draws per
      retry. The result also reports the retry count. */
  function Resample3(m: M3, attempts: nat, ds: seq<real>): (r: Option<(M3, nat, seq<real>)>)
    requires attempts <= MaxAttempts && Unit(ds) && IntegralM3(m)
    decreases MaxAttempts - attempts
    ensures Det3(m) != 0.0 || attempts == MaxAttempts ==> r == Some((m, attempts, ds))
    ensures r.Some? ==> attempts <= r.value.1 <= MaxAttempts
    ensures r.Some? ==> Det3(r.value.0) != 0.0 || r.value.1 == MaxAttempts
    ensures r.Some? ==> Suffix(r.value.2, ds) && |ds| - |r.value.2| == 9 * (r.value.1 - attempts)
    ensures r.Some? ==> IntegralM3(r.value.0)
    ensures r.None? ==> |ds| < 9 * (MaxAttempts - attempts)
  {
    if Det3(m) != 0.0 || attempts == MaxAttempts then Some((m, attempts, ds))
    else
      match Sample3(ds)
      case None => None
      case Some((m', rest)) =>
        SuffixUnit(rest, ds);
        var r := Resample3(m', attempts + 1, rest);
        if r.Some? then SuffixTrans(r.value.2, rest, ds); r else r
  }

  /** The 3×3 matrix drawn from block `b` of the stream, its draws `9b` to
      `9b + 8`. */
  function Block3(ds: seq<real>, b: nat): M3
    requires Unit(ds) && 9 * b + 9 <= |ds|
  {
    M3(Entry(ds[9 * b]), Entry(ds[9 * b + 1]), Entry(ds[9 * b + 2]),
       Entry(ds[9 * b + 3]), Entry(ds[9 * b + 4]), Entry(ds[9 * b + 5]),
       Entry(ds[9 * b + 6]), Entry(ds[9 * b + 7]), Entry(ds[9 * b + 8]))
  }

  /** Block `b` of a stream is block `b − 1` of what follows its first block. */
  lemma BlockShift3(ds: seq<real>, b: nat)
    requires Unit(ds) && 0 < b && 9 * b + 9 <= |ds|
    ensures Block3(ds, b) == Block3(ds[9..], b - 1)
  {
  }

  /** `mr` is what a loop that went from attempt `a` to attempt `n`, starting
      from `m` on the stream `ds`, ends with: `m` itself when there was no
      retry, and otherwise the last block drawn, with `m` and every earlier
      block singular. */
  ghost predicate Traced3(m: M3, a: nat, n: nat, ds: seq<real>, mr: M3)
    requires Unit(ds)
  {
    && a <= n && 9 * (n - a) <= |ds|
    && (n == a ==> mr == m)
    && (n > a ==> Det3(m) == 0.0 && mr == Block3(ds, n - a - 1))
    && forall b :: 0 <= b && 9 * b + 9 < 9 * (n - a) ==> Det3(Block3(ds, b)) == 0.0
  }

  /** With no retry the loop ends with its start. */
  lemma TracedNone3(m: M3, a: nat, ds: seq<real>)
    requires Unit(ds)
    ensures Traced3(m, a, a, ds, m)
  {
  }

  /** A singular start followed by a trace from the first block is a trace
      with one more retry. */
  lemma TracedCons3(m: M3, a: nat, n: nat, ds: seq<real>, mr: M3)
    requires Unit(ds) && |ds| >= 9 && Det3(m) == 0.0
    requires Traced3(Block3(ds, 0), a + 1, n, ds[9..], mr)
    ensures Traced3(m, a, n, ds, mr)
  {
    var t := n - a;
    if t > 1 {
      BlockShift3(ds, t - 1);
    }
    forall b | 0 <= b && 9 * b + 9 < 9 * t ensures Det3(Block3(ds, b)) == 0.0 {
      if b == 0 {
        assert t > 1;
      } else {
        BlockShift3(ds, b);
        assert 9 * (b - 1) + 9 < 9 * (t - 1);
      }
    }
  }

  /** A capped loop that ends on its starting attempt kept its start. */
  lemma Resample3Stay(m: M3, attempts: nat, ds: seq<real>)
    requires attempts <= MaxAttempts && Unit(ds) && IntegralM3(m)
    requires Resample3(m, attempts, ds).Some? && Resample3(m, attempts, ds).value.1 == attempts
    ensures Resample3(m, attempts, ds).value.0 == m
  {
  }

  /** A capped loop that ends past its starting attempt retried once: its
      start was singular and below the cap, and it carried on from the
      first block. */
  lemma Resample3Step(m: M3, attempts: nat, ds: seq<real>)
    requires attempts <= MaxAttempts && Unit(ds) && IntegralM3(m)
    requires Resample3(m, attempts, ds).Some? && Resample3(m, attempts, ds).value.1 != attempts
    ensures Det3(m) == 0.0 && attempts < MaxAttempts
    ensures |ds| >= 9 && Unit(ds[9..]) && IntegralM3(Block3(ds, 0))
    ensures Resample3(m, attempts, ds) == Resample3(Block3(ds, 0), attempts + 1, ds[9..])
  {
    assert Sample3(ds) == Some((Block3(ds, 0), ds[9..]));
    SuffixUnit(ds[9..], ds);
  }

  /** What the capped loop did, read off its result: the result is the start
      when no retry was made and otherwise the last block drawn, and the
      start and every block before the last were singular. */
  lemma {:induction false} Resample3Trace(m: M3, attempts: nat, ds: seq<real>)
    requires attempts <= MaxAttempts && Unit(ds) && IntegralM3(m) && Resample3(m, attempts, ds).Some?
    ensures Traced3(m, attempts, Resample3(m, attempts, ds).value.1, ds, Resample3(m, attempts, ds).value.0)
    decreases MaxAttempts - attempts, 1
  {
    if Resample3(m, attempts, ds).value.1 == attempts {
      Resample3Stay(m, attempts, ds);
      TracedNone3(m, attempts, ds);
    } else {
      Resample3Retried(m, attempts, ds);
    }
  }

  /** The trace of a loop that retried at least once. */
  lemma {:induction false} Resample3Retried(m: M3, attempts: nat, ds: seq<real>)
    requires attempts <= MaxAttempts && Unit(ds) && IntegralM3(m)
    requires Resample3(m, attempts, ds).Some? && Resample3(m, attempts, ds).value.1 != attempts
    ensures Traced3(m, attempts, Resample3(m, attempts, ds).value.1, ds, Resample3(m, attempts, ds).value.0)
    decreases MaxAttempts - attempts, 0
  {
    Resample3Step(m, attempts, ds);
    Resample3Trace(Block3(ds, 0), attempts + 1, ds[9..]);
    var r := Resample3(m, attempts, ds);
    TracedCons3(m, attempts, r.value.1, ds, r.value.0);
  }

  /** The 2×2 retry loop, which has no cap: it draws new matrices until the
      determinant is nonzero, four draws each, and fails only if the stream
      runs dry first. */
  function Resample2(m: M2, ds: seq<real>): (r: Option<(M2, seq<real>)>)
    requires Unit(ds) && IntegralM2(m)
    decreases |ds|
    ensures Det2(m) != 0.0 ==> r == Some((m, ds))
    ensures r.Some? ==> Det2(r.value.0) != 0.0
    ensures r.Some? ==> Suffix(r.value.1, ds) && (|ds| - |r.value.1|) % 4 == 0
    ensures r.Some? ==> IntegralM2(r.value.0)
  {
    if Det2(m) != 0.0 then Some((m, ds))
    else
      match Sample2(ds)
      case None => None
      case Some((m', rest)) =>
        SuffixUnit(rest, ds);
        var r := Resample2(m', rest);
        if r.Some? then SuffixTrans(r.value.1, rest, ds); r else r
  }

  /** The 2×2 matrix drawn from block `b` of the stream, its draws `4b` to
      `4b + 3`. */
  function Block2(ds: seq<real>, b: nat): M2
    requires Unit(ds) && 4 * b + 4 <= |ds|
  {
    M2(Entry(ds[4 * b]), Entry(ds[4 * b + 1]), Entry(ds[4 * b + 2]), Entry(ds[4 * b + 3]))
  }

  /** The uncapped loop fails only by running dry: then the start and every
      four-draw block it could have drawn were singular. */
  lemma {:induction false} Resample2Dry(m: M2, ds: seq<real>)
    requires Unit(ds) && IntegralM2(m) && Resample2(m, ds).None?
    ensures Det2(m) == 0.0
    ensures forall b :: 0 <= b && 4 * b + 4 <= |ds| ==> Det2(Block2(ds, b)) == 0.0
    decreases |ds|
  {
    if |ds| >= 4 {
      var m', rest := Block2(ds, 0), ds[4..];
      assert Sample2(ds) == Some((m', rest));
      assert Resample2(m', rest).None?;
      Resample2Dry(m', rest);
      forall b | 0 <= b && 4 * b + 4 <= |ds| ensures Det2(Block2(ds, b)) == 0.0 {
        if b > 0 {
          BlockShift2(ds, b);
        }
      }
    }
  }

  /** Block `b` of a stream is block `b − 1` of what follows its first block. */
  lemma BlockShift2(ds: seq<real>, b: nat)
    requires Unit(ds) && 0 < b && 4 * b + 4 <= |ds|
    ensures Block2(ds, b) == Block2(ds[4..], b - 1)
  {
  }

  /** `mr` is what the uncapped loop ends with after `t` retries from `m` on
      the stream `ds`: `m` itself when there was no retry, and otherwise the
      last block drawn, with `m` and every earlier block singular. */
  ghost predicate Traced2(m: M2, t: nat, ds: seq<real>, mr: M2)
    requires Unit(ds)
  {
    && 4 * t <= |ds|
    && (t == 0 ==> mr == m)
    && (t > 0 ==> Det2(m) == 0.0 && mr == Block2(ds, t - 1))
    && forall b :: 0 <= b && b + 1 < t ==> Det2(Block2(ds, b)) == 0.0
  }

  /** A singular start followed by a trace from the first block is a trace
      with one more retry. */
  lemma TracedCons2(m: M2, t: nat, ds: seq<real>, mr: M2)
    requires Unit(ds) && |ds| >= 4 && Det2(m) == 0.0
    requires Traced2(Block2(ds, 0), t, ds[4..], mr)
    ensures Traced2(m, t + 1, ds, mr)
  {
    if t > 0 {
      BlockShift2(ds, t);
    }
    forall b | 0 <= b && b + 1 < t + 1 ensures Det2(Block2(ds, b)) == 0.0 {
      if b > 0 {
        BlockShift2(ds, b);
      }
    }
  }

  /** What the uncapped loop did, read off its result: with `t` the number of
      retries, it used `4t` draws and ends with its start when there was no
      retry, and otherwise with the last block drawn, the start and every
      earlier block being singular. */
  lemma {:induction false} Resample2Trace(m: M2, ds: seq<real>) returns (t: nat)
    requires Unit(ds) && IntegralM2(m) && Resample2(m, ds).Some?
    ensures |ds| - |Resample2(m, ds).value.1| == 4 * t
    ensures Traced2(m, t, ds, Resample2(m, ds).value.0)
    decreases |ds|
  {
    if Det2(m) != 0.0 {
      t := 0;
    } else {
      var m', rest := Block2(ds, 0), ds[4..];
      assert Sample2(ds) == Some((m', rest));
      SuffixUnit(rest, ds);
      assert Resample2(m, ds) == Resample2(m', rest);
      var t' := Resample2Trace(m', rest);
      TracedCons2(m, t', ds, Resample2(m', rest).value.0);
      t := t' + 1;
    }
  }

  /** The matrix whose last row is `v` times the first row of `m`. */
  function RowMultiple3(m: M3, v: real): M3 {
    M3(m.a, m.b, m.c, m.d, m.e, m.f, v * m.a, v * m.b, v * m.c)
  }

  /** A product of whole numbers is whole. */
  lemma ProductIntegral(v: real, x: real)
    requires Integral(v) && Integral(x)
    ensures Integral(v * x)
  {
    assert v * x == (v.Floor * x.Floor) as real;
  }

  /** A whole multiple of a whole row is whole. */
  lemma RowMultipleIntegral3(m: M3, v: real)
    ensures IntegralM3(m) && Integral(v) ==> IntegralM3(RowMultiple3(m, v))
  {
    if IntegralM3(m) && Integral(v) {
      var n := RowMultiple3(m, v);
      forall r, c | 0 <= r < 3 && 0 <= c < 3 ensures Integral(At3(n, r, c)) {
        if r < 2 {
          assert At3(n, r, c) == At3(m, r, c);
        } else {
          var x := At3(m, 0, c);
          assert Integral(x);
          ProductIntegral(v, x);
          assert At3(n, r, c) == v * x;
        }
      }
    }
  }

  /** The collapse of a 3×3 draw: the first two rows stay and the third is
      replaced by a multiple of the first, so the matrix is always singular;
      a whole multiplier keeps the entries whole. */
  function Collapse3(m: M3, v: real): (r: M3)
    ensures r.a == m.a && r.b == m.b && r.c == m.c && r.d == m.d && r.e == m.e && r.f == m.f
    ensures Det3(r) == 0.0 && Inverse3(r) == None
    ensures IntegralM3(m) && Integral(v) ==> IntegralM3(r)
  {
    RowMultipleIntegral3(m, v);
    RowMultiple3(m, v)
  }

  /** A problem as the screens push it: id `k + 1`, the matrix, and the
      determinant and inverse computed from it. */
  predicate Stored3(p: Problem3, k: nat) {
    && p.id == k + 1
    && p.determinant == Det3(p.matrix)
    && p.correctInverse == Inverse3(p.matrix)
    && IntegralM3(p.matrix)
  }

  predicate Stored2(p: Problem2, k: nat) {
    && p.id == k + 1
    && p.determinant == Det2(p.matrix)
    && p.correctInverse == Inverse2(p.matrix)
    && IntegralM2(p.matrix)
  }

  /** Most draws one 3×3 problem can use: nine, then twenty retries of nine. */
  const MaxDraws3: nat := 9 * (MaxAttempts + 1)

  /** Problem `k` of the 3×3 set. On indices divisible by three the retry loop
      runs; elsewhere one draw above 0.6 triggers the collapse, which always
      yields a singular matrix. A singular matrix on an index divisible by
      three means every one of the 21 matrices drawn was singular. */
  function Next3(k: nat, ds: seq<real>): (r: Option<(Problem3, seq<real>)>)
    requires Unit(ds)
    ensures r.Some? ==> Stored3(r.value.0, k) && Suffix(r.value.1, ds)
    ensures r.Some? && k % 3 == 0 && r.value.0.determinant == 0.0 ==> |ds| - |r.value.1| == MaxDraws3
    ensures r.Some? && k % 3 != 0 && |ds| > 9 && ds[9] > 0.6 ==> r.value.0.determinant == 0.0
    ensures r.Some? ==> |ds| - |r.value.1| <= MaxDraws3
    ensures r.None? ==> |ds| < MaxDraws3
    ensures k % 3 != 0 && |ds| >= 11 ==> r.Some?
  {
    match Sample3(ds)
    case None => None
    case Some((m0, ds1)) =>
      SuffixUnit(ds1, ds);
      if k % 3 == 0 then
        match Resample3(m0, 0, ds1)
        case None => None
        case Some((m, _, ds2)) =>
          SuffixTrans(ds2, ds1, ds);
          Some((Problem3(k + 1, m, Det3(m), Inverse3(m)), ds2))
      else if |ds1| == 0 then None
      else if ds1[0] > 0.6 then
        if |ds1| < 2 then None
        else
          var m := Collapse3(m0, Factor(ds1[1]));
          Some((Problem3(k + 1, m, Det3(m), Inverse3(m)), ds1[2..]))
      else Some((Problem3(k + 1, m0, Det3(m0), Inverse3(m0)), ds1[1..]))
  }

  /** `mr` is block `t` of the stream and every block before it is
      singular. */
  ghost predicate LastOf3(ds: seq<real>, t: nat, mr: M3)
    requires Unit(ds)
  {
    && 9 * t + 9 <= |ds|
    && mr == Block3(ds, t)
    && forall b :: 0 <= b < t ==> Det3(Block3(ds, b)) == 0.0
  }

  /** A trace from the first block of a stream, read over the whole stream. */
  lemma TracedLast3(ds: seq<real>, t: nat, mr: M3)
    requires Unit(ds) && |ds| >= 9
    requires Traced3(Block3(ds, 0), 0, t, ds[9..], mr)
    ensures LastOf3(ds, t, mr)
  {
    if t > 0 {
      BlockShift3(ds, t);
    }
    forall b | 0 <= b < t ensures Det3(Block3(ds, b)) == 0.0 {
      if b > 0 {
        BlockShift3(ds, b);
        assert 9 * (b - 1) + 9 < 9 * t;
      }
    }
  }

  /** On an index divisible by three, the problem holds the matrix the
      retry loop ends with, started from the first block. */
  lemma Next3Loop(k: nat, ds: seq<real>)
    requires Unit(ds) && k % 3 == 0 && Next3(k, ds).Some?
    ensures |ds| >= 9 && Unit(ds[9..])
    ensures var r := Resample3(Block3(ds, 0), 0, ds[9..]);
            && r.Some?
            && Next3(k, ds).value.0.matrix == r.value.0
            && |ds| - |Next3(k, ds).value.1| == 9 * r.value.1 + 9
  {
    assert Sample3(ds) == Some((Block3(ds, 0), ds[9..]));
    SuffixUnit(ds[9..], ds);
  }

  /** An always-invertible 3×3 problem is the last block its loop drew:
      with `t` the number of retries, the problem used `9t + 9` draws, its
      matrix is block `t`, every block before it was singular, and a
      singular matrix means the loop ran out of retries. */
  lemma Next3Trace(k: nat, ds: seq<real>) returns (t: nat)
    requires Unit(ds) && k % 3 == 0 && Next3(k, ds).Some?
    ensures |ds| - |Next3(k, ds).value.1| == 9 * t + 9
    ensures LastOf3(ds, t, Next3(k, ds).value.0.matrix)
    ensures Det3(Next3(k, ds).value.0.matrix) != 0.0 || t == MaxAttempts
  {
    Next3Loop(k, ds);
    var r := Resample3(Block3(ds, 0), 0, ds[9..]);
    Resample3Trace(Block3(ds, 0), 0, ds[9..]);
    TracedLast3(ds, r.value.1, r.value.0);
    t := r.value.1;
  }

  /** A singular 3×3 problem on an index divisible by three: all 21 matrices
      its loop drew, the first and the 20 retries, were singular. */
  lemma Next3Dry(k: nat, ds: seq<real>)
    requires Unit(ds) && k % 3 == 0 && Next3(k, ds).Some? && Next3(k, ds).value.0.determinant == 0.0
    ensures |ds| >= MaxDraws3
    ensures forall b :: 0 <= b <= MaxAttempts ==> Det3(Block3(ds, b)) == 0.0
  {
    var t := Next3Trace(k, ds);
    LastDry3(ds, t, Next3(k, ds).value.0.matrix);
  }

  /** When the last block is singular too, every block up to it is. */
  lemma LastDry3(ds: seq<real>, t: nat, mr: M3)
    requires Unit(ds) && LastOf3(ds, t, mr) && Det3(mr) == 0.0
    ensures forall b :: 0 <= b <= t ==> Det3(Block3(ds, b)) == 0.0
  {
  }

  /** A nonsingular first draw is kept: the problem is that matrix, and
      nothing beyond its nine draws is used. */
  lemma Next3Kept(k: nat, ds: seq<real>)
    requires Unit(ds) && k % 3 == 0 && |ds| >= 9 && Det3(Block3(ds, 0)) != 0.0
    ensures Next3(k, ds) == Some((Problem3(k + 1, Block3(ds, 0), Det3(Block3(ds, 0)), Inverse3(Block3(ds, 0))), ds[9..]))
  {
    assert Sample3(ds) == Some((Block3(ds, 0), ds[9..]));
  }

  /** Off the indices divisible by three: too few draws fail; a tenth draw
      at or below 0.6 keeps the first block and uses ten draws; above 0.6
      the problem is the collapse of the first block by the factor the
      eleventh draw gives, using eleven draws. */
  lemma Next3Off(k: nat, ds: seq<real>)
    requires Unit(ds) && k % 3 != 0
    ensures |ds| < 10 ==> Next3(k, ds).None?
    ensures |ds| >= 10 && ds[9] <= 0.6 ==>
              Next3(k, ds) == Some((Problem3(k + 1, Block3(ds, 0), Det3(Block3(ds, 0)), Inverse3(Block3(ds, 0))), ds[10..]))
    ensures |ds| == 10 && ds[9] > 0.6 ==> Next3(k, ds).None?
    ensures |ds| > 10 && ds[9] > 0.6 ==>
              var m := Collapse3(Block3(ds, 0), Factor(ds[10]));
              Next3(k, ds) == Some((Problem3(k + 1, m, Det3(m), Inverse3(m)), ds[11..]))
  {
  }

  /** Problem `k` of the 2×2 set. On indices divisible by three the matrix is
      always invertible; elsewhere one draw above 0.5 sets all four entries
      to one value, which always yields a singular matrix. */
  function Next2(k: nat, ds: seq<real>): (r: Option<(Problem2, seq<real>)>)
    requires Unit(ds)
    ensures r.Some? ==> Stored2(r.value.0, k) && Suffix(r.value.1, ds)
    ensures r.Some? && k % 3 == 0 ==> r.value.0.determinant != 0.0 && r.value.0.correctInverse.Some?
    ensures r.Some? && k % 3 != 0 && |ds| > 4 && ds[4] > 0.5 ==> r.value.0.determinant == 0.0
    ensures r.Some? ==> |r.value.1| < |ds|
    ensures k % 3 != 0 && |ds| >= 6 ==> r.Some?
  {
    match Sample2(ds)
    case None => None
    case Some((m0, ds1)) =>
      SuffixUnit(ds1, ds);
      if k % 3 == 0 then
        match Resample2(m0, ds1)
        case None => None
        case Some((m, ds2)) =>
          SuffixTrans(ds2, ds1, ds);
          Some((Problem2(k + 1, m, Det2(m), Inverse2(m)), ds2))
      else if |ds1| == 0 then None
      else if ds1[0] > 0.5 then
        if |ds1| < 2 then None
        else
          var v := Common(ds1[1]);
          var m := M2(v, v, v, v);
          Some((Problem2(k + 1, m, Det2(m), Inverse2(m)), ds1[2..]))
      else Some((Problem2(k + 1, m0, Det2(m0), Inverse2(m0)), ds1[1..]))
  }

  /** An always-invertible 2×2 problem fails only by running dry: every
      four-draw block of the stream is singular. */
  lemma Next2Dry(k: nat, ds: seq<real>)
    requires Unit(ds) && k % 3 == 0 && Next2(k, ds).None?
    ensures forall b :: 0 <= b && 4 * b + 4 <= |ds| ==> Det2(Block2(ds, b)) == 0.0
  {
    if |ds| >= 4 {
      var m0, ds1 := Block2(ds, 0), ds[4..];
      assert Sample2(ds) == Some((m0, ds1));
      SuffixUnit(ds1, ds);
      assert Resample2(m0, ds1).None?;
      Resample2Dry(m0, ds1);
      forall b | 0 <= b && 4 * b + 4 <= |ds| ensures Det2(Block2(ds, b)) == 0.0 {
        if b > 0 {
          BlockShift2(ds, b);
        }
      }
    }
  }

  /** An always-invertible 2×2 problem is the first nonsingular block its
      loop drew: with `t` the number of retries, it used `4t + 4` draws, its
      matrix is block `t` of the stream and every earlier block was
      singular. */
  lemma Next2Trace(k: nat, ds: seq<real>) returns (t: nat)
    requires Unit(ds) && k % 3 == 0 && Next2(k, ds).Some?
    ensures |ds| - |Next2(k, ds).value.1| == 4 * t + 4
    ensures 4 * t + 4 <= |ds| && Next2(k, ds).value.0.matrix == Block2(ds, t)
    ensures forall b :: 0 <= b < t ==> Det2(Block2(ds, b)) == 0.0
  {
    var m0, ds1 := Block2(ds, 0), ds[4..];
    assert Sample2(ds) == Some((m0, ds1));
    SuffixUnit(ds1, ds);
    var r := Resample2(m0, ds1);
    assert Next2(k, ds).value.0.matrix == r.value.0 && Next2(k, ds).value.1 == r.value.1;
    t := Resample2Trace(m0, ds1);
    if t > 0 {
      BlockShift2(ds, t);
    }
    forall b | 0 <= b < t ensures Det2(Block2(ds, b)) == 0.0 {
      if b > 0 {
        BlockShift2(ds, b);
      }
    }
  }

  /** Off the indices divisible by three: too few draws fail; a fifth draw
      at or below 0.5 keeps the first block and uses five draws; above 0.5
      all four entries become the common value the sixth draw gives, using
      six draws. */
  lemma Next2Off(k: nat, ds: seq<real>)
    requires Unit(ds) && k % 3 != 0
    ensures |ds| < 5 ==> Next2(k, ds).None?
    ensures |ds| >= 5 && ds[4] <= 0.5 ==>
              Next2(k, ds) == Some((Problem2(k + 1, Block2(ds, 0), Det2(Block2(ds, 0)), Inverse2(Block2(ds, 0))), ds[5..]))
    ensures |ds| == 5 && ds[4] > 0.5 ==> Next2(k, ds).None?
    ensures |ds| > 5 && ds[4] > 0.5 ==>
              var v := Common(ds[5]);
              Next2(k, ds) == Some((Problem2(k + 1, M2(v, v, v, v), Det2(M2(v, v, v, v)), Inverse2(M2(v, v, v, v))), ds[6..]))
  {
  }

  /** `ps` is what drawing problem after problem from `ds` yields: problem k
      is `Next3(k, ·)` on the draws from `pos[k]` on, and leaves the draws
      from `pos[k + 1]` on for the next one. */
  predicate Drawn3(ps: seq<Problem3>, pos: seq<nat>, ds: seq<real>)
    requires Unit(ds)
  {
    && |pos| == |ps| + 1 && pos[0] == 0
    && (forall k :: 0 <= k < |pos| ==> pos[k] <= |ds|)
    && forall k :: 0 <= k < |ps| ==> Next3(k, ds[pos[k]..]) == Some((ps[k], ds[pos[k + 1]..]))
  }

  /** The 2×2 counterpart of `Drawn3`. */
  predicate Drawn2(ps: seq<Problem2>, pos: seq<nat>, ds: seq<real>)
    requires Unit(ds)
  {
    && |pos| == |ps| + 1 && pos[0] == 0
    && (forall k :: 0 <= k < |pos| ==> pos[k] <= |ds|)
    && forall k :: 0 <= k < |ps| ==> Next2(k, ds[pos[k]..]) == Some((ps[k], ds[pos[k + 1]..]))
  }

  /** Drawing one more problem extends a drawn set. */
  lemma DrawnExtend3(ps: seq<Problem3>, pos: seq<nat>, ds: seq<real>, p: Problem3, n: nat)
    requires Unit(ds) && Drawn3(ps, pos, ds) && n <= |ds|
    requires Next3(|ps|, ds[pos[|ps|]..]) == Some((p, ds[n..]))
    ensures Drawn3(ps + [p], pos + [n], ds)
  {
    var ps', pos' := ps + [p], pos + [n];
    forall k | 0 <= k < |ps'| ensures Next3(k, ds[pos'[k]..]) == Some((ps'[k], ds[pos'[k + 1]..])) {
      if k < |ps| {
        assert ps'[k] == ps[k] && pos'[k] == pos[k] && pos'[k + 1] == pos[k + 1];
      }
    }
  }

  lemma DrawnExtend2(ps: seq<Problem2>, pos: seq<nat>, ds: seq<real>, p: Problem2, n: nat)
    requires Unit(ds) && Drawn2(ps, pos, ds) && n <= |ds|
    requires Next2(|ps|, ds[pos[|ps|]..]) == Some((p, ds[n..]))
    ensures Drawn2(ps + [p], pos + [n], ds)
  {
    var ps', pos' := ps + [p], pos + [n];
    forall k | 0 <= k < |ps'| ensures Next2(k, ds[pos'[k]..]) == Some((ps'[k], ds[pos'[k + 1]..])) {
      if k < |ps| {
        assert ps'[k] == ps[k] && pos'[k] == pos[k] && pos'[k + 1] == pos[k + 1];
      }
    }
  }

  /** The index policy over a whole 3×3 set: every problem stores its own
      determinant and inverse; a singular problem 1, 4, 7 or 10 used all 189
      draws of its retries; elsewhere the tenth draw of the problem is the
      threshold: at or below 0.6 the problem is its first nine draws, above
      0.6 it is their collapse by the factor the eleventh draw gives, which
      is singular. */
  lemma DrawnPolicy3(ps: seq<Problem3>, pos: seq<nat>, ds: seq<real>, k: nat)
    requires Unit(ds) && Drawn3(ps, pos, ds) && k < |ps|
    ensures Stored3(ps[k], k)
    ensures k % 3 == 0 && ps[k].determinant == 0.0 ==> pos[k + 1] - pos[k] == MaxDraws3
    ensures k % 3 != 0 && pos[k] + 9 < |ds| && ds[pos[k] + 9] > 0.6 ==> ps[k].determinant == 0.0
    ensures k % 3 != 0 ==> pos[k] + 9 < |ds|
    ensures k % 3 != 0 && pos[k] + 9 < |ds| && ds[pos[k] + 9] <= 0.6 ==>
              pos[k + 1] == pos[k] + 10 && ps[k].matrix == Block3(ds[pos[k]..], 0)
    ensures k % 3 != 0 && pos[k] + 9 < |ds| && ds[pos[k] + 9] > 0.6 ==>
              && pos[k] + 10 < |ds| && pos[k + 1] == pos[k] + 11
              && ps[k].matrix == Collapse3(Block3(ds[pos[k]..], 0), Factor(ds[pos[k] + 10]))
  {
    assert pos[k] <= |ds| && pos[k + 1] <= |ds|;
    var d, d' := ds[pos[k]..], ds[pos[k + 1]..];
    assert Next3(k, d) == Some((ps[k], d'));
    assert |d| - |d'| == pos[k + 1] - pos[k];
    if k % 3 != 0 {
      Next3Off(k, d);
      if |d| > 10 {
        assert d[10] == ds[pos[k] + 10];
      }
    }
    if pos[k] + 9 < |ds| {
      assert d[9] == ds[pos[k] + 9];
    }
  }

  /** The index policy over a whole 2×2 set: problems 1, 4, 7 and 10 are
      invertible; elsewhere the fifth draw of the problem is the threshold:
      at or below 0.5 the problem is its first four draws, above 0.5 all four
      entries are the common value the sixth draw gives, which is
      singular. */
  lemma DrawnPolicy2(ps: seq<Problem2>, pos: seq<nat>, ds: seq<real>, k: nat)
    requires Unit(ds) && Drawn2(ps, pos, ds) && k < |ps|
    ensures Stored2(ps[k], k)
    ensures k % 3 == 0 ==> ps[k].determinant != 0.0 && ps[k].correctInverse.Some?
    ensures k % 3 != 0 && pos[k] + 4 < |ds| && ds[pos[k] + 4] > 0.5 ==> ps[k].determinant == 0.0
    ensures k % 3 != 0 ==> pos[k] + 4 < |ds|
    ensures k % 3 != 0 && pos[k] + 4 < |ds| && ds[pos[k] + 4] <= 0.5 ==>
              pos[k + 1] == pos[k] + 5 && ps[k].matrix == Block2(ds[pos[k]..], 0)
    ensures k % 3 != 0 && pos[k] + 4 < |ds| && ds[pos[k] + 4] > 0.5 ==>
              && pos[k] + 5 < |ds| && pos[k + 1] == pos[k] + 6
              && ps[k].matrix == M2(Common(ds[pos[k] + 5]), Common(ds[pos[k] + 5]), Common(ds[pos[k] + 5]), Common(ds[pos[k] + 5]))
  {
    assert pos[k] <= |ds| && pos[k + 1] <= |ds|;
    var d, d' := ds[pos[k]..], ds[pos[k + 1]..];
    assert Next2(k, d) == Some((ps[k], d'));
    assert |d| - |d'| == pos[k + 1] - pos[k];
    if k % 3 != 0 {
      Next2Off(k, d);
      if |d| > 5 {
        assert d[5] == ds[pos[k] + 5];
      }
    }
    if pos[k] + 4 < |ds| {
      assert d[4] == ds[pos[k] + 4];
    }
  }

  /** One turn of the 3×3 generation loop: drawing problem `|ps|` from the
      rest of the stream extends the drawn set and uses at most `MaxDraws3`
      further draws. */
  lemma Step3(ps: seq<Problem3>, pos: seq<nat>, ds: seq<real>, rest: seq<real>, p: Problem3, rest': seq<real>,
              ps': seq<Problem3>, pos': seq<nat>)
    requires Unit(ds) && Drawn3(ps, pos, ds) && Suffix(rest, ds) && pos[|ps|] == |ds| - |rest|
    requires Unit(rest) && Next3(|ps|, rest) == Some((p, rest'))
    requires ps' == ps + [p] && pos' == pos + [|ds| - |rest'|]
    ensures Drawn3(ps', pos', ds)
    ensures Suffix(rest', ds) && Unit(rest')
    ensures |ds| - |rest'| <= pos[|ps|] + MaxDraws3
  {
    SuffixTrans(rest', rest, ds);
    SuffixUnit(rest', rest);
    var n := |ds| - |rest'|;
    assert rest == ds[pos[|ps|]..] && rest' == ds[n..];
    DrawnExtend3(ps, pos, ds, p, n);
  }

  /** Each further problem adds `MaxDraws3` to the draws a set may use, up to
      `ProblemCount * MaxDraws3` for the whole set. */
  lemma DrawBudget(i: nat)
    requires i < ProblemCount
    ensures (i + 1) * MaxDraws3 == i * MaxDraws3 + MaxDraws3
    ensures i * MaxDraws3 + MaxDraws3 <= ProblemCount * MaxDraws3
  {
  }

  /** `generateProblems` on the 3×3 screen: problem after problem drawn from
      the stream, ten in all, with ids 1..10, each storing its own
      determinant and inverse. With enough draws it never fails. */
  method Generate3(ds: seq<real>) returns (r: Option<seq<Problem3>>, pos: seq<nat>)
    requires Unit(ds)
    ensures r.Some? ==> |r.value| == ProblemCount && Drawn3(r.value, pos, ds)
    ensures r.Some? ==> forall k :: 0 <= k < |r.value| ==> Stored3(r.value[k], k)
    ensures |ds| >= ProblemCount * MaxDraws3 ==> r.Some?
    ensures r.None? ==> 0 < |pos| <= ProblemCount && pos[|pos| - 1] <= |ds|
    ensures r.None? ==> Next3(|pos| - 1, ds[pos[|pos| - 1]..]).None?
    ensures r.None? ==> exists ps :: Drawn3(ps, pos, ds)
  {
    var generated: seq<Problem3> := [];
    var rest := ds;
    pos := [0];
    var i := 0;
    while i < ProblemCount
      invariant 0 <= i <= ProblemCount && |generated| == i && |pos| == i + 1
      invariant Suffix(rest, ds) && Unit(rest) && pos[i] == |ds| - |rest|
      invariant pos[i] <= i * MaxDraws3
      invariant Drawn3(generated, pos, ds)
    {
      DrawBudget(i);
      var next := Next3(i, rest);
      if next.None? {
        assert rest == ds[pos[i]..];
        assert Drawn3(generated, pos, ds);
        return None, pos;
      }
      var (p, rest') := next.value;
      var generated', pos' := generated + [p], pos + [|ds| - |rest'|];
      Step3(generated, pos, ds, rest, p, rest', generated', pos');
      generated, pos := generated', pos';
      rest := rest';
      i := i + 1;
    }
    forall k | 0 <= k < |generated| ensures Stored3(generated[k], k) {
      DrawnPolicy3(generated, pos, ds, k);
    }
    return Some(generated), pos;
  }

  /** `generateProblems` on the 2×2 screen: problem after problem drawn from
      the stream, ten in all, with ids 1..10, and problems 1, 4, 7 and 10
      always invertible. */
  method Generate2(ds: seq<real>) returns (r: Option<seq<Problem2>>, pos: seq<nat>)
    requires Unit(ds)
    ensures r.Some? ==> |r.value| == ProblemCount && Drawn2(r.value, pos, ds)
    ensures r.Some? ==> forall k :: 0 <= k < |r.value| ==> Stored2(r.value[k], k)
    ensures r.Some? ==> forall k :: 0 <= k < |r.value| && k % 3 == 0 ==>
                          r.value[k].determinant != 0.0 && r.value[k].correctInverse.Some?
    ensures r.None? ==> 0 < |pos| <= ProblemCount && pos[|pos| - 1] <= |ds|
    ensures r.None? ==> Next2(|pos| - 1, ds[pos[|pos| - 1]..]).None?
    ensures r.None? ==> exists ps :: Drawn2(ps, pos, ds)
  {
    var generated: seq<Problem2> := [];
    var rest := ds;
    pos := [0];
    var i := 0;
    while i < ProblemCount
      invariant 0 <= i <= ProblemCount && |generated| == i && |pos| == i + 1 && pos[0] == 0
      invariant Suffix(rest, ds) && Unit(rest) && pos[i] == |ds| - |rest|
      invariant Drawn2(generated, pos, ds)
    {
      var next := Next2(i, rest);
      if next.None? {
        assert rest == ds[pos[i]..];
        assert Drawn2(generated, pos, ds);
        return None, pos;
      }
      var (p, rest') := next.value;
      SuffixTrans(rest', rest, ds);
      SuffixUnit(rest', rest);
      assert rest == ds[pos[i]..] && rest' == ds[|ds| - |rest'|..];
      DrawnExtend2(generated, pos, ds, p, |ds| - |rest'|);
      generated := generated + [p];
      pos := pos + [|ds| - |rest'|];
      rest := rest';
      i := i + 1;
    }
    forall k | 0 <= k < |generated|
      ensures Stored2(generated[k], k)
      ensures k % 3 == 0 ==> generated[k].determinant != 0.0 && generated[k].correctInverse.Some?
    {
      DrawnPolicy2(generated, pos, ds, k);
    }
    return Some(generated), pos;
  }
}
