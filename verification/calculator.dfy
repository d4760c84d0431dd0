/** The two calculator screens: a grid of text boxes, an `=` button that
    shows the inverse or the message "Matrix is not invertible", and a Reset
    button. Reading a box is `parseFloat`, passed in as `parse`; a box it
    cannot read (JavaScript's NaN) is `None`. */
module Calculator {
  import opened Wrappers
  import opened Matrices
  import opened Forms

  /** What the result area shows: nothing (`result` is null), the message, or
      the inverse's cells. */
  datatype Display<M> = Blank | NotInvertible | Shown(inverse: M)

  datatype Calc2 = Calc2(form: Form2, result: Display<M2>)
  datatype Calc3 = Calc3(form: Form3, result: Display<M3>)

  /** A freshly opened (or reset) 2×2 calculator: empty boxes, no result. */
  function Initial2(): (s: Calc2)
    ensures s.result == Blank && forall k :: 0 <= k < 4 ==> s.form[k] == ""
  {
    Calc2(Empty2, Blank)
  }

  /** A freshly opened (or reset) 3×3 calculator. */
  function Initial3(): (s: Calc3)
    ensures s.result == Blank && forall k :: 0 <= k < 9 ==> s.form[k] == ""
  {
    Calc3(Empty3, Blank)
  }

  /** The `=` button of the 2×2 screen. A NaN determinant (an unreadable box)
      and a zero determinant give the same message; otherwise the screen
      shows `[[D, −B], [−C, A]] / det`, the formula the practice screen uses
      too, which inverts the matrix read. */
  function Calculate2(f: Form2, parse: string -> Option<real>): (r: Display<M2>)
    ensures r != Blank
    ensures r.NotInvertible? <==> Read2(f, parse).None? || Det2(Read2(f, parse).value) == 0.0
    ensures r.Shown? ==>
              && Mul2(Read2(f, parse).value, r.inverse) == Identity2
              && Mul2(r.inverse, Read2(f, parse).value) == Identity2
  {
    match Read2(f, parse)
    case None => NotInvertible
    case Some(m) =>
      InverseIsTwoSided2(m);
      match Inverse2(m)
      case None => NotInvertible
      case Some(inv) => Shown(inv)
  }

  /** The adjugate as the 3×3 calculator writes it out, cell by cell, straight
      from the entries. */
  function ScreenAdjugate3(m: M3): M3 {
    M3(  m.e * m.i - m.f * m.h,  -(m.b * m.i - m.c * m.h),   m.b * m.f - m.c * m.e,
       -(m.d * m.i - m.f * m.g),   m.a * m.i - m.c * m.g,  -(m.a * m.f - m.c * m.d),
         m.d * m.h - m.e * m.g,  -(m.a * m.h - m.b * m.g),   m.a * m.e - m.b * m.d)
  }

  /** The screen's cell-by-cell adjugate is the transposed cofactor matrix that
      the practice screens build. */
  lemma HandWrittenAdjugate(m: M3)
    ensures ScreenAdjugate3(m) == Adjugate3(m)
  {
  }

  /** The `=` button of the 3×3 screen: the determinant by first-row
      expansion, then the screen's adjugate divided by the determinant. */
  function Calculate3(f: Form3, parse: string -> Option<real>): (r: Display<M3>)
    ensures r != Blank
    ensures r.NotInvertible? <==> Read3(f, parse).None? || Det3(Read3(f, parse).value) == 0.0
    ensures r.Shown? ==>
              && Mul3(Read3(f, parse).value, r.inverse) == Identity3
              && Mul3(r.inverse, Read3(f, parse).value) == Identity3
  {
    match Read3(f, parse)
    case None => NotInvertible
    case Some(m) =>
      var det := Det3(m);
      if det == 0.0 then NotInvertible
      else
        HandWrittenAdjugate(m);
        InverseIsTwoSided3(m);
        Shown(Div3(ScreenAdjugate3(m), det))
  }

  /** A calculator shows an inverse exactly when every box holds a number and
      the matrix they form has some inverse; what it shows is the one the
      practice screens compute. */
  lemma CalculatorsAgree(f2: Form2, f3: Form3, parse: string -> Option<real>)
    ensures Calculate2(f2, parse).Shown? <==>
              Read2(f2, parse).Some? && exists x :: Mul2(Read2(f2, parse).value, x) == Identity2
    ensures Calculate2(f2, parse).Shown? ==> Some(Calculate2(f2, parse).inverse) == Inverse2(Read2(f2, parse).value)
    ensures Calculate3(f3, parse).Shown? <==>
              Read3(f3, parse).Some? && exists x :: Mul3(Read3(f3, parse).value, x) == Identity3
    ensures Calculate3(f3, parse).Shown? ==> Some(Calculate3(f3, parse).inverse) == Inverse3(Read3(f3, parse).value)
  {
    if Read2(f2, parse).Some? {
      InvertibleIff2(Read2(f2, parse).value);
    }
    if Read3(f3, parse).Some? {
      var m := Read3(f3, parse).value;
      InvertibleIff3(m);
      HandWrittenAdjugate(m);
    }
  }

  /** `=` on the 2×2 screen: the boxes are kept and the result replaced by
      the message exactly when the boxes do not form an invertible matrix,
      and otherwise by that matrix's two-sided inverse. */
  function Press2(s: Calc2, parse: string -> Option<real>): (r: Calc2)
    ensures r.form == s.form && r.result != Blank
    ensures r.result.NotInvertible? <==> Read2(s.form, parse).None? || Det2(Read2(s.form, parse).value) == 0.0
    ensures r.result.Shown? ==>
              && Mul2(Read2(s.form, parse).value, r.result.inverse) == Identity2
              && Mul2(r.result.inverse, Read2(s.form, parse).value) == Identity2
  {
    Calc2(s.form, Calculate2(s.form, parse))
  }

  /** `=` on the 3×3 screen. */
  function Press3(s: Calc3, parse: string -> Option<real>): (r: Calc3)
    ensures r.form == s.form && r.result != Blank
    ensures r.result.NotInvertible? <==> Read3(s.form, parse).None? || Det3(Read3(s.form, parse).value) == 0.0
    ensures r.result.Shown? ==>
              && Mul3(Read3(s.form, parse).value, r.result.inverse) == Identity3
              && Mul3(r.result.inverse, Read3(s.form, parse).value) == Identity3
  {
    Calc3(s.form, Calculate3(s.form, parse))
  }

  /** Typing into box `k` of the 2×2 screen changes that box only; the result
      on display stays until `=` is pressed again. */
  function Type2(s: Calc2, k: nat, text: string): (r: Calc2)
    requires k < 4
    ensures r.form[k] == text && r.result == s.result
    ensures forall j :: 0 <= j < 4 && j != k ==> r.form[j] == s.form[j]
  {
    Calc2(s.form[k := text], s.result)
  }

  /** Typing into box `k` of the 3×3 screen. */
  function Type3(s: Calc3, k: nat, text: string): (r: Calc3)
    requires k < 9
    ensures r.form[k] == text && r.result == s.result
    ensures forall j :: 0 <= j < 9 && j != k ==> r.form[j] == s.form[j]
  {
    Calc3(s.form[k := text], s.result)
  }

  /** Reset empties every box and clears the result, whatever the state. */
  function Reset2(s: Calc2): (r: Calc2)
    ensures r == Initial2()
  {
    Calc2(Empty2, Blank)
  }

  /** Reset on the 3×3 screen. */
  function Reset3(s: Calc3): (r: Calc3)
    ensures r == Initial3()
  {
    Calc3(Empty3, Blank)
  }

  /** Since `parseFloat('')` is NaN, pressing `=` straight after Reset (or on
      a fresh screen) shows the message rather than an inverse. */
  lemma EqualsAfterReset(s2: Calc2, s3: Calc3, parse: string -> Option<real>)
    requires parse("").None?
    ensures Press2(Reset2(s2), parse).result == NotInvertible
    ensures Press3(Reset3(s3), parse).result == NotInvertible
  {
    assert Reset2(s2).form[0] == "";
    assert Reset3(s3).form[0] == "";
  }
}
