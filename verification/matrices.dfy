/** The determinant and inverse engine shared by the calculator and practice
    screens. Entries are exact reals rather than IEEE doubles, so the algebra
    the screens rely on (a zero determinant means no inverse, `M × M⁻¹ = I`)
    can be stated and proved exactly. */
module Matrices {
  import opened Wrappers

  /** A 2×2 matrix [[a, b], [c, d]], named as the screens destructure it. */
  datatype M2 = M2(a: real, b: real, c: real, d: real)

  /** A 3×3 matrix [[a, b, c], [d, e, f], [g, h, i]] in row-major order. */
  datatype M3 = M3(a: real, b: real, c: real, d: real, e: real, f: real, g: real, h: real, i: real)

  const Identity2: M2 := M2(1.0, 0.0, 0.0, 1.0)
  const Identity3: M3 := M3(1.0, 0.0, 0.0, 0.0, 1.0, 0.0, 0.0, 0.0, 1.0)

  /** Entry (r, col) of a 2×2 matrix, for statements about "every cell". */
  function At2(m: M2, r: nat, col: nat): real
    requires r < 2 && col < 2
  {
    if r == 0 then (if col == 0 then m.a else m.b)
    else (if col == 0 then m.c else m.d)
  }

  /** Entry (r, col) of a 3×3 matrix. */
  function At3(m: M3, r: nat, col: nat): real
    requires r < 3 && col < 3
  {
    if r == 0 then (if col == 0 then m.a else if col == 1 then m.b else m.c)
    else if r == 1 then (if col == 0 then m.d else if col == 1 then m.e else m.f)
    else (if col == 0 then m.g else if col == 1 then m.h else m.i)
  }

  function Mul2(x: M2, y: M2): M2 {
    M2(x.a * y.a + x.b * y.c, x.a * y.b + x.b * y.d,
       x.c * y.a + x.d * y.c, x.c * y.b + x.d * y.d)
  }

  function Mul3(x: M3, y: M3): M3 {
    M3(x.a * y.a + x.b * y.d + x.c * y.g, x.a * y.b + x.b * y.e + x.c * y.h, x.a * y.c + x.b * y.f + x.c * y.i,
       x.d * y.a + x.e * y.d + x.f * y.g, x.d * y.b + x.e * y.e + x.f * y.h, x.d * y.c + x.e * y.f + x.f * y.i,
       x.g * y.a + x.h * y.d + x.i * y.g, x.g * y.b + x.h * y.e + x.i * y.h, x.g * y.c + x.h * y.f + x.i * y.i)
  }

  function Scale3(k: real, m: M3): M3 {
    M3(k * m.a, k * m.b, k * m.c, k * m.d, k * m.e, k * m.f, k * m.g, k * m.h, k * m.i)
  }

  function Transpose3(m: M3): M3 {
    M3(m.a, m.d, m.g, m.b, m.e, m.h, m.c, m.f, m.i)
  }

  /** `a·d − b·c`. */
  function Det2(m: M2): real {
    m.a * m.d - m.b * m.c
  }

  /** Cofactor expansion along the first row. */
  function Det3(m: M3): real {
    m.a * (m.e * m.i - m.f * m.h) - m.b * (m.d * m.i - m.f * m.g) + m.c * (m.d * m.h - m.e * m.g)
  }

  /** An independent definition of the 3×3 determinant: the Leibniz sum over
      the six permutations of the columns, each with its sign. */
  function Leibniz3(m: M3): real {
    m.a * m.e * m.i + m.b * m.f * m.g + m.c * m.d * m.h
    - m.c * m.e * m.g - m.b * m.d * m.i - m.a * m.f * m.h
  }

  /** The matrix of signed 2×2 minors, checkerboard signs with `+` at [0][0]. */
  function Cofactor3(m: M3): M3 {
    M3(  m.e * m.i - m.f * m.h,  -(m.d * m.i - m.f * m.g),   m.d * m.h - m.e * m.g,
       -(m.b * m.i - m.c * m.h),   m.a * m.i - m.c * m.g,  -(m.a * m.h - m.b * m.g),
         m.b * m.f - m.c * m.e,  -(m.a * m.f - m.c * m.d),   m.a * m.e - m.b * m.d)
  }

  /** The adjugate: the transposed cofactor matrix. */
  function Adjugate3(m: M3): M3 {
    Transpose3(Cofactor3(m))
  }

  /** Every entry divided by `k`, the last step of the adjugate method. */
  function Div3(m: M3, k: real): M3
    requires k != 0.0
  {
    M3(m.a / k, m.b / k, m.c / k, m.d / k, m.e / k, m.f / k, m.g / k, m.h / k, m.i / k)
  }

  /** The 2×2 inverse by the swap/negate rule, `[[d, −b], [−c, a]] / det`, or
      None when the determinant is zero. */
  function Inverse2(m: M2): (r: Option<M2>)
    ensures r.None? <==> Det2(m) == 0.0
  {
    var det := Det2(m);
    if det == 0.0 then None
    else Some(M2(m.d / det, -m.b / det, -m.c / det, m.a / det))
  }

  /** The 3×3 inverse `adj(M) / det(M)`, or None when the determinant is zero. */
  function Inverse3(m: M3): (r: Option<M3>)
    ensures r.None? <==> Det3(m) == 0.0
  {
    var det := Det3(m);
    if det == 0.0 then None
    else Some(Div3(Adjugate3(m), det))
  }

  // ---------------------------------------------------------------------------
  // The determinant

  /** First-row expansion agrees with the Leibniz formula. */
  lemma Det3IsLeibniz(m: M3)
    ensures Det3(m) == Leibniz3(m)
  {
  }

  /** Transposing does not change the determinant, so expanding down the first
      column gives the same number as expanding along the first row. */
  lemma Det3Transpose(m: M3)
    ensures Det3(Transpose3(m)) == Det3(m)
  {
    Det3IsLeibniz(m);
    Det3IsLeibniz(Transpose3(m));
  }

  /** The 2×2 determinant is multiplicative. */
  lemma Det2Product(x: M2, y: M2)
    ensures Det2(Mul2(x, y)) == Det2(x) * Det2(y)
  {
  }

  // ---------------------------------------------------------------------------
  // The adjugate identities `M · adj(M) = adj(M) · M = det(M) · I`, stated over
  // plain reals one row or column of the adjugate (p, q, s) at a time.

  /** Each row of the matrix times column 0 of the adjugate (row 0 of the
      cofactor matrix): expansion along row 0 on the diagonal. */
  lemma TimesAdjugateColumn0(a: real, b: real, c: real, d: real, e: real, f: real, g: real, h: real, i: real,
      p: real, q: real, s: real, t0: real, t1: real, t2: real, det: real)
    requires p == e * i - f * h && q == -(d * i - f * g) && s == d * h - e * g
    requires t0 == a * p + b * q + c * s && t1 == d * p + e * q + f * s && t2 == g * p + h * q + i * s
    requires det == a * (e * i - f * h) - b * (d * i - f * g) + c * (d * h - e * g)
    ensures t0 == det
    ensures t1 == 0.0
    ensures t2 == 0.0
  {
  }

  /** Each row of the matrix times column 1 of the adjugate. */
  lemma TimesAdjugateColumn1(a: real, b: real, c: real, d: real, e: real, f: real, g: real, h: real, i: real,
      p: real, q: real, s: real, t0: real, t1: real, t2: real, det: real)
    requires p == -(b * i - c * h) && q == a * i - c * g && s == -(a * h - b * g)
    requires t0 == a * p + b * q + c * s && t1 == d * p + e * q + f * s && t2 == g * p + h * q + i * s
    requires det == a * (e * i - f * h) - b * (d * i - f * g) + c * (d * h - e * g)
    ensures t0 == 0.0
    ensures t1 == det
    ensures t2 == 0.0
  {
  }

  /** Each row of the matrix times column 2 of the adjugate. */
  lemma TimesAdjugateColumn2(a: real, b: real, c: real, d: real, e: real, f: real, g: real, h: real, i: real,
      p: real, q: real, s: real, t0: real, t1: real, t2: real, det: real)
    requires p == b * f - c * e && q == -(a * f - c * d) && s == a * e - b * d
    requires t0 == a * p + b * q + c * s && t1 == d * p + e * q + f * s && t2 == g * p + h * q + i * s
    requires det == a * (e * i - f * h) - b * (d * i - f * g) + c * (d * h - e * g)
    ensures t0 == 0.0
    ensures t1 == 0.0
    ensures t2 == det
  {
  }

  /** Column 0 of `M · adj(M)`. */
  lemma TimesAdjugateEntries0(m: M3)
    ensures Mul3(m, Adjugate3(m)).a == Det3(m)
    ensures Mul3(m, Adjugate3(m)).d == 0.0
    ensures Mul3(m, Adjugate3(m)).g == 0.0
  {
    var adj := Adjugate3(m);
    var t := Mul3(m, adj);
    assert t.a == m.a * adj.a + m.b * adj.d + m.c * adj.g;
    assert t.d == m.d * adj.a + m.e * adj.d + m.f * adj.g;
    assert t.g == m.g * adj.a + m.h * adj.d + m.i * adj.g;
    TimesAdjugateColumn0(m.a, m.b, m.c, m.d, m.e, m.f, m.g, m.h, m.i, adj.a, adj.d, adj.g,
                         t.a, t.d, t.g, Det3(m));
  }

  /** Column 1 of `M · adj(M)`. */
  lemma TimesAdjugateEntries1(m: M3)
    ensures Mul3(m, Adjugate3(m)).b == 0.0
    ensures Mul3(m, Adjugate3(m)).e == Det3(m)
    ensures Mul3(m, Adjugate3(m)).h == 0.0
  {
    var adj := Adjugate3(m);
    var t := Mul3(m, adj);
    assert t.b == m.a * adj.b + m.b * adj.e + m.c * adj.h;
    assert t.e == m.d * adj.b + m.e * adj.e + m.f * adj.h;
    assert t.h == m.g * adj.b + m.h * adj.e + m.i * adj.h;
    TimesAdjugateColumn1(m.a, m.b, m.c, m.d, m.e, m.f, m.g, m.h, m.i, adj.b, adj.e, adj.h,
                         t.b, t.e, t.h, Det3(m));
  }

  /** Column 2 of `M · adj(M)`. */
  lemma TimesAdjugateEntries2(m: M3)
    ensures Mul3(m, Adjugate3(m)).c == 0.0
    ensures Mul3(m, Adjugate3(m)).f == 0.0
    ensures Mul3(m, Adjugate3(m)).i == Det3(m)
  {
    var adj := Adjugate3(m);
    var t := Mul3(m, adj);
    assert t.c == m.a * adj.c + m.b * adj.f + m.c * adj.i;
    assert t.f == m.d * adj.c + m.e * adj.f + m.f * adj.i;
    assert t.i == m.g * adj.c + m.h * adj.f + m.i * adj.i;
    TimesAdjugateColumn2(m.a, m.b, m.c, m.d, m.e, m.f, m.g, m.h, m.i, adj.c, adj.f, adj.i,
                         t.c, t.f, t.i, Det3(m));
  }

  /** The adjugate of the transpose is the transposed adjugate. */
  lemma AdjugateTranspose3(m: M3)
    ensures Adjugate3(Transpose3(m)) == Transpose3(Adjugate3(m))
  {
  }

  /** `(X · Y)ᵀ = Yᵀ · Xᵀ`. */
  lemma TransposeProduct3(x: M3, y: M3)
    ensures Transpose3(Mul3(x, y)) == Mul3(Transpose3(y), Transpose3(x))
  {
  }

  /** `M · adj(M) = adj(M) · M = det(M) · I`. */
  lemma AdjugateProduct3(m: M3)
    ensures Mul3(m, Adjugate3(m)) == Scale3(Det3(m), Identity3)
    ensures Mul3(Adjugate3(m), m) == Scale3(Det3(m), Identity3)
  {
    TimesAdjugateEntries0(m); TimesAdjugateEntries1(m); TimesAdjugateEntries2(m);
    var t := Transpose3(m);
    TimesAdjugateEntries0(t); TimesAdjugateEntries1(t); TimesAdjugateEntries2(t);
    Det3Transpose(m);
    AdjugateTranspose3(m);
    TransposeProduct3(Adjugate3(m), m);
    assert Transpose3(Transpose3(Mul3(Adjugate3(m), m))) == Mul3(Adjugate3(m), m);
  }

  // ---------------------------------------------------------------------------
  // The inverse. Each scalar lemma below is one polynomial identity divided
  // through by `det`; taking the adjugate entries as parameters keeps the
  // solver's view of each obligation small.

  /** Column 0 of `adj(M) / det` is column 0 of the inverse: each row of
      M dotted with it gives entry (0..2, 0) of the identity. */
  lemma InverseColumn0(a: real, b: real, c: real, d: real, e: real, f: real, g: real, h: real, i: real,
                        det: real, u: real, v: real, w: real)
    requires det == a * (e * i - f * h) - b * (d * i - f * g) + c * (d * h - e * g) && det != 0.0
    requires u == (e * i - f * h) / det && v == (-(d * i - f * g)) / det && w == (d * h - e * g) / det
    ensures a * u + b * v + c * w == 1.0
    ensures d * u + e * v + f * w == 0.0
    ensures g * u + h * v + i * w == 0.0
  {
  }

  /** Column 1 of `adj(M) / det` is column 1 of the inverse: each row of
      M dotted with it gives entry (0..2, 1) of the identity. */
  lemma InverseColumn1(a: real, b: real, c: real, d: real, e: real, f: real, g: real, h: real, i: real,
                        det: real, u: real, v: real, w: real)
    requires det == a * (e * i - f * h) - b * (d * i - f * g) + c * (d * h - e * g) && det != 0.0
    requires u == (-(b * i - c * h)) / det && v == (a * i - c * g) / det && w == (-(a * h - b * g)) / det
    ensures a * u + b * v + c * w == 0.0
    ensures d * u + e * v + f * w == 1.0
    ensures g * u + h * v + i * w == 0.0
  {
  }

  /** Column 2 of `adj(M) / det` is column 2 of the inverse: each row of
      M dotted with it gives entry (0..2, 2) of the identity. */
  lemma InverseColumn2(a: real, b: real, c: real, d: real, e: real, f: real, g: real, h: real, i: real,
                        det: real, u: real, v: real, w: real)
    requires det == a * (e * i - f * h) - b * (d * i - f * g) + c * (d * h - e * g) && det != 0.0
    requires u == (b * f - c * e) / det && v == (-(a * f - c * d)) / det && w == (a * e - b * d) / det
    ensures a * u + b * v + c * w == 0.0
    ensures d * u + e * v + f * w == 0.0
    ensures g * u + h * v + i * w == 1.0
  {
  }

  /** Row 0 of `adj(M) / det` is row 0 of the inverse: dotted with each
      column of M it gives entry (0, 0..2) of the identity. */
  lemma InverseRow0(a: real, b: real, c: real, d: real, e: real, f: real, g: real, h: real, i: real,
                     det: real, u: real, v: real, w: real)
    requires det == a * (e * i - f * h) - b * (d * i - f * g) + c * (d * h - e * g) && det != 0.0
    requires u == (e * i - f * h) / det && v == (-(b * i - c * h)) / det && w == (b * f - c * e) / det
    ensures u * a + v * d + w * g == 1.0
    ensures u * b + v * e + w * h == 0.0
    ensures u * c + v * f + w * i == 0.0
  {
  }

  /** Row 1 of `adj(M) / det` is row 1 of the inverse: dotted with each
      column of M it gives entry (1, 0..2) of the identity. */
  lemma InverseRow1(a: real, b: real, c: real, d: real, e: real, f: real, g: real, h: real, i: real,
                     det: real, u: real, v: real, w: real)
    requires det == a * (e * i - f * h) - b * (d * i - f * g) + c * (d * h - e * g) && det != 0.0
    requires u == (-(d * i - f * g)) / det && v == (a * i - c * g) / det && w == (-(a * f - c * d)) / det
    ensures u * a + v * d + w * g == 0.0
    ensures u * b + v * e + w * h == 1.0
    ensures u * c + v * f + w * i == 0.0
  {
  }

  /** Row 2 of `adj(M) / det` is row 2 of the inverse: dotted with each
      column of M it gives entry (2, 0..2) of the identity. */
  lemma InverseRow2(a: real, b: real, c: real, d: real, e: real, f: real, g: real, h: real, i: real,
                     det: real, u: real, v: real, w: real)
    requires det == a * (e * i - f * h) - b * (d * i - f * g) + c * (d * h - e * g) && det != 0.0
    requires u == (d * h - e * g) / det && v == (-(a * h - b * g)) / det && w == (a * e - b * d) / det
    ensures u * a + v * d + w * g == 0.0
    ensures u * b + v * e + w * h == 0.0
    ensures u * c + v * f + w * i == 1.0
  {
  }

  /** The matrix U = P / det, where P is the adjugate of [[a, b, c], [d, e, f],
      [g, h, i]] entry by entry, is its right inverse. */
  lemma AdjugateRightInverse3(a: real, b: real, c: real, d: real, e: real, f: real, g: real, h: real, i: real,
                         pa: real, pb: real, pc: real, pd: real, pe: real, pf: real, pg: real, ph: real, pi: real,
                         ua: real, ub: real, uc: real, ud: real, ue: real, uf: real, ug: real, uh: real, ui: real,
                         det: real)
    requires det == a * (e * i - f * h) - b * (d * i - f * g) + c * (d * h - e * g) && det != 0.0
    requires pa == (e * i - f * h) && ua == pa / det
    requires pb == (-(b * i - c * h)) && ub == pb / det
    requires pc == (b * f - c * e) && uc == pc / det
    requires pd == (-(d * i - f * g)) && ud == pd / det
    requires pe == (a * i - c * g) && ue == pe / det
    requires pf == (-(a * f - c * d)) && uf == pf / det
    requires pg == (d * h - e * g) && ug == pg / det
    requires ph == (-(a * h - b * g)) && uh == ph / det
    requires pi == (a * e - b * d) && ui == pi / det
    ensures Mul3(M3(a, b, c, d, e, f, g, h, i), M3(ua, ub, uc, ud, ue, uf, ug, uh, ui)) == Identity3
  {
    InverseColumn0(a, b, c, d, e, f, g, h, i, det, ua, ud, ug);
    InverseColumn1(a, b, c, d, e, f, g, h, i, det, ub, ue, uh);
    InverseColumn2(a, b, c, d, e, f, g, h, i, det, uc, uf, ui);
  }

  /** The matrix U = P / det, where P is the adjugate of [[a, b, c], [d, e, f],
      [g, h, i]] entry by entry, is its left inverse. */
  lemma AdjugateLeftInverse3(a: real, b: real, c: real, d: real, e: real, f: real, g: real, h: real, i: real,
                         pa: real, pb: real, pc: real, pd: real, pe: real, pf: real, pg: real, ph: real, pi: real,
                         ua: real, ub: real, uc: real, ud: real, ue: real, uf: real, ug: real, uh: real, ui: real,
                         det: real)
    requires det == a * (e * i - f * h) - b * (d * i - f * g) + c * (d * h - e * g) && det != 0.0
    requires pa == (e * i - f * h) && ua == pa / det
    requires pb == (-(b * i - c * h)) && ub == pb / det
    requires pc == (b * f - c * e) && uc == pc / det
    requires pd == (-(d * i - f * g)) && ud == pd / det
    requires pe == (a * i - c * g) && ue == pe / det
    requires pf == (-(a * f - c * d)) && uf == pf / det
    requires pg == (d * h - e * g) && ug == pg / det
    requires ph == (-(a * h - b * g)) && uh == ph / det
    requires pi == (a * e - b * d) && ui == pi / det
    ensures Mul3(M3(ua, ub, uc, ud, ue, uf, ug, uh, ui), M3(a, b, c, d, e, f, g, h, i)) == Identity3
  {
    InverseRow0(a, b, c, d, e, f, g, h, i, det, ua, ub, uc);
    InverseRow1(a, b, c, d, e, f, g, h, i, det, ud, ue, uf);
    InverseRow2(a, b, c, d, e, f, g, h, i, det, ug, uh, ui);
  }

  /** `M × M⁻¹ = I` whenever the adjugate method yields `M⁻¹`. */
  lemma InverseRight3(m: M3)
    ensures Inverse3(m).Some? ==> Mul3(m, Inverse3(m).value) == Identity3
  {
    var det := Det3(m);
    if det != 0.0 {
      var p := Adjugate3(m);
      var x := Div3(p, det);
      assert x.a == p.a / det && x.b == p.b / det && x.c == p.c / det;
      assert x.d == p.d / det && x.e == p.e / det && x.f == p.f / det;
      assert x.g == p.g / det && x.h == p.h / det && x.i == p.i / det;
      AdjugateRightInverse3(m.a, m.b, m.c, m.d, m.e, m.f, m.g, m.h, m.i,
                            p.a, p.b, p.c, p.d, p.e, p.f, p.g, p.h, p.i,
                            x.a, x.b, x.c, x.d, x.e, x.f, x.g, x.h, x.i, det);
      assert M3(m.a, m.b, m.c, m.d, m.e, m.f, m.g, m.h, m.i) == m;
      assert M3(x.a, x.b, x.c, x.d, x.e, x.f, x.g, x.h, x.i) == x;
    }
  }

  /** `M⁻¹ × M = I` whenever the adjugate method yields `M⁻¹`. */
  lemma InverseLeft3(m: M3)
    ensures Inverse3(m).Some? ==> Mul3(Inverse3(m).value, m) == Identity3
  {
    var det := Det3(m);
    if det != 0.0 {
      var p := Adjugate3(m);
      var x := Div3(p, det);
      assert x.a == p.a / det && x.b == p.b / det && x.c == p.c / det;
      assert x.d == p.d / det && x.e == p.e / det && x.f == p.f / det;
      assert x.g == p.g / det && x.h == p.h / det && x.i == p.i / det;
      AdjugateLeftInverse3(m.a, m.b, m.c, m.d, m.e, m.f, m.g, m.h, m.i,
                           p.a, p.b, p.c, p.d, p.e, p.f, p.g, p.h, p.i,
                           x.a, x.b, x.c, x.d, x.e, x.f, x.g, x.h, x.i, det);
      assert M3(m.a, m.b, m.c, m.d, m.e, m.f, m.g, m.h, m.i) == m;
      assert M3(x.a, x.b, x.c, x.d, x.e, x.f, x.g, x.h, x.i) == x;
    }
  }

  /** Over exact reals the adjugate method yields a two-sided inverse:
      `M × M⁻¹ = M⁻¹ × M = I` whenever `M⁻¹` exists. */
  lemma InverseIsTwoSided3(m: M3)
    ensures Inverse3(m).Some? ==> Mul3(m, Inverse3(m).value) == Identity3
    ensures Inverse3(m).Some? ==> Mul3(Inverse3(m).value, m) == Identity3
  {
    InverseRight3(m);
    InverseLeft3(m);
  }

  /** Column 0 of the swap/negate inverse, `(d, −c) / det`, times
      [[a, b], [c, d]] gives column 0 of the identity. */
  lemma SwapNegateColumn0(a: real, b: real, c: real, d: real, det: real, u: real, v: real)
    requires det == a * d - b * c && det != 0.0
    requires u == d / det && v == (-c) / det
    ensures a * u + b * v == 1.0 && c * u + d * v == 0.0
  {
  }

  /** Column 1 of the swap/negate inverse, `(−b, a) / det`, gives column 1 of
      the identity. */
  lemma SwapNegateColumn1(a: real, b: real, c: real, d: real, det: real, u: real, v: real)
    requires det == a * d - b * c && det != 0.0
    requires u == (-b) / det && v == a / det
    ensures a * u + b * v == 0.0 && c * u + d * v == 1.0
  {
  }

  /** `[[d, −b], [−c, a]] / det` is a two-sided inverse of [[a, b], [c, d]];
      the left product is the right product of the transposes. */
  lemma SwapNegateInverse2(a: real, b: real, c: real, d: real, det: real,
                           ua: real, ub: real, uc: real, ud: real)
    requires det == a * d - b * c && det != 0.0
    requires ua == d / det && ub == (-b) / det && uc == (-c) / det && ud == a / det
    ensures Mul2(M2(a, b, c, d), M2(ua, ub, uc, ud)) == Identity2
    ensures Mul2(M2(ua, ub, uc, ud), M2(a, b, c, d)) == Identity2
  {
    SwapNegateColumn0(a, b, c, d, det, ua, uc);
    SwapNegateColumn1(a, b, c, d, det, ub, ud);
    SwapNegateColumn0(a, c, b, d, det, ua, ub);
    SwapNegateColumn1(a, c, b, d, det, uc, ud);
  }

  /** The swap/negate rule yields a two-sided inverse. */
  lemma InverseIsTwoSided2(m: M2)
    ensures Inverse2(m).Some? ==> Mul2(m, Inverse2(m).value) == Identity2
    ensures Inverse2(m).Some? ==> Mul2(Inverse2(m).value, m) == Identity2
  {
    var det := Det2(m);
    if det != 0.0 {
      var x := Inverse2(m).value;
      SwapNegateInverse2(m.a, m.b, m.c, m.d, det, x.a, x.b, x.c, x.d);
      assert M2(m.a, m.b, m.c, m.d) == m;
      assert M2(x.a, x.b, x.c, x.d) == x;
    }
  }

  // ---------------------------------------------------------------------------
  // A zero determinant rules out every inverse, not only the adjugate one.

  /** `u · (M · x) = (u · M) · x` for a row vector u and a column vector x. */
  lemma Regroup(u0: real, u1: real, u2: real,
                a: real, b: real, c: real, d: real, e: real, f: real, g: real, h: real, i: real,
                x0: real, x1: real, x2: real, t0: real, t1: real, t2: real, s0: real, s1: real, s2: real)
    requires t0 == a * x0 + b * x1 + c * x2 && t1 == d * x0 + e * x1 + f * x2 && t2 == g * x0 + h * x1 + i * x2
    requires s0 == u0 * a + u1 * d + u2 * g && s1 == u0 * b + u1 * e + u2 * h && s2 == u0 * c + u1 * f + u2 * i
    ensures u0 * t0 + u1 * t1 + u2 * t2 == s0 * x0 + s1 * x1 + s2 * x2
  {
  }

  /** A row vector u with `u · M = 0` is orthogonal to everything M produces;
      so if `M · x` is the last unit column, the last entry of u is zero. */
  lemma RowKernel(u0: real, u1: real, u2: real,
                  a: real, b: real, c: real, d: real, e: real, f: real, g: real, h: real, i: real,
                  x0: real, x1: real, x2: real, t0: real, t1: real, t2: real)
    requires u0 * a + u1 * d + u2 * g == 0.0 && u0 * b + u1 * e + u2 * h == 0.0 && u0 * c + u1 * f + u2 * i == 0.0
    requires t0 == a * x0 + b * x1 + c * x2 && t1 == d * x0 + e * x1 + f * x2 && t2 == g * x0 + h * x1 + i * x2
    ensures t0 == 0.0 && t1 == 0.0 && t2 == 1.0 ==> u2 == 0.0
  {
    Regroup(u0, u1, u2, a, b, c, d, e, f, g, h, i, x0, x1, x2, t0, t1, t2, 0.0, 0.0, 0.0);
  }

  /** For singular M, row 0 of adj(M) is a left null vector of M, so its last
      entry vanishes once the last column of `M · x` is that of the identity. */
  lemma SingularKernel0(m: M3, x: M3)
    requires Det3(m) == 0.0
    ensures Mul3(m, x).c == 0.0 && Mul3(m, x).f == 0.0 && Mul3(m, x).i == 1.0 ==> Adjugate3(m).c == 0.0
  {
    AdjugateProduct3(m);
    var p := Adjugate3(m);
    var q := Mul3(p, m);
    var t := Mul3(m, x);
    assert q.a == 0.0 && q.b == 0.0 && q.c == 0.0;
    RowKernel(p.a, p.b, p.c, m.a, m.b, m.c, m.d, m.e, m.f, m.g, m.h, m.i, x.c, x.f, x.i, t.c, t.f, t.i);
  }

  /** For singular M, row 1 of adj(M) is a left null vector of M, so its last
      entry vanishes once the last column of `M · x` is that of the identity. */
  lemma SingularKernel1(m: M3, x: M3)
    requires Det3(m) == 0.0
    ensures Mul3(m, x).c == 0.0 && Mul3(m, x).f == 0.0 && Mul3(m, x).i == 1.0 ==> Adjugate3(m).f == 0.0
  {
    AdjugateProduct3(m);
    var p := Adjugate3(m);
    var q := Mul3(p, m);
    var t := Mul3(m, x);
    assert q.d == 0.0 && q.e == 0.0 && q.f == 0.0;
    RowKernel(p.d, p.e, p.f, m.a, m.b, m.c, m.d, m.e, m.f, m.g, m.h, m.i, x.c, x.f, x.i, t.c, t.f, t.i);
  }

  /** For singular M, row 2 of adj(M) is a left null vector of M, so its last
      entry vanishes once the last column of `M · x` is that of the identity. */
  lemma SingularKernel2(m: M3, x: M3)
    requires Det3(m) == 0.0
    ensures Mul3(m, x).c == 0.0 && Mul3(m, x).f == 0.0 && Mul3(m, x).i == 1.0 ==> Adjugate3(m).i == 0.0
  {
    AdjugateProduct3(m);
    var p := Adjugate3(m);
    var q := Mul3(p, m);
    var t := Mul3(m, x);
    assert q.g == 0.0 && q.h == 0.0 && q.i == 0.0;
    RowKernel(p.g, p.h, p.i, m.a, m.b, m.c, m.d, m.e, m.f, m.g, m.h, m.i, x.c, x.f, x.i, t.c, t.f, t.i);
  }

  /** Cauchy–Binet for the top-left 2×2 minor of a product: it is the sum of
      the products of the 2×2 minors of the first two rows of the left factor
      (`k0`, `k1`, `k2`, entries of the adjugate's last column) with the
      matching minors of the first two columns of the right factor. */
  lemma MinorOfProduct(a: real, b: real, c: real, d: real, e: real, f: real,
                       p: real, q: real, r: real, s: real, t: real, u: real,
                       w: real, x: real, y: real, z: real, k0: real, k1: real, k2: real)
    requires w == a * p + b * r + c * t && x == a * q + b * s + c * u
    requires y == d * p + e * r + f * t && z == d * q + e * s + f * u
    requires k0 == a * e - b * d && k1 == -(a * f - c * d) && k2 == b * f - c * e
    ensures w * z - x * y == k0 * (p * s - r * q) - k1 * (p * u - t * q) + k2 * (r * u - t * s)
  {
  }

  /** A 3×3 matrix with zero determinant has no right inverse at all: if
      `M · X = I`, the last column of adj(M) would vanish, and then by
      Cauchy–Binet so would the top-left minor of `M · X`, which is 1. */
  lemma SingularHasNoInverse3(m: M3, x: M3)
    requires Det3(m) == 0.0
    ensures Mul3(m, x) != Identity3
  {
    var p := Adjugate3(m);
    var t := Mul3(m, x);
    SingularKernel0(m, x);
    SingularKernel1(m, x);
    SingularKernel2(m, x);
    MinorOfProduct(m.a, m.b, m.c, m.d, m.e, m.f, x.a, x.b, x.d, x.e, x.g, x.h, t.a, t.b, t.d, t.e, p.i, p.f, p.c);
  }

  /** A 2×2 matrix with zero determinant has no right inverse: the determinant
      of `M · X` would be `0 · det(X)`, but that of I is 1. */
  lemma SingularHasNoInverse2(m: M2, x: M2)
    requires Det2(m) == 0.0
    ensures Mul2(m, x) != Identity2
  {
    Det2Product(m, x);
  }

  /** Over exact reals the zero-determinant test loses nothing: the inverse
      is produced precisely when some matrix inverts M. */
  lemma InvertibleIff3(m: M3)
    ensures Inverse3(m).Some? <==> exists x :: Mul3(m, x) == Identity3
  {
    if Inverse3(m).Some? {
      InverseRight3(m);
    } else {
      forall x ensures Mul3(m, x) != Identity3 {
        SingularHasNoInverse3(m, x);
      }
    }
  }

  /** The 2×2 counterpart of `InvertibleIff3`. */
  lemma InvertibleIff2(m: M2)
    ensures Inverse2(m).Some? <==> exists x :: Mul2(m, x) == Identity2
  {
    if Inverse2(m).Some? {
      InverseIsTwoSided2(m);
    } else {
      forall x ensures Mul2(m, x) != Identity2 {
        SingularHasNoInverse2(m, x);
      }
    }
  }
}
