/** The grids of text boxes the screens read matrices from: the calculators'
    input and the practice screens' answer boxes. `parseFloat` is a parameter
    `parse`, with None for NaN. */
module Forms {
  import opened Wrappers
  import opened Matrices

  /** The text of the boxes, keyed a..d (2×2) or a..i (3×3) in reading order. */
  type Form2 = f: seq<string> | |f| == 4 witness ["", "", "", ""]
  type Form3 = f: seq<string> | |f| == 9 witness ["", "", "", "", "", "", "", "", ""]

  /** All boxes empty, as on opening and after every reset. */
  const Empty2: Form2 := ["", "", "", ""]
  const Empty3: Form3 := ["", "", "", "", "", "", "", "", ""]

  /** Every box read as a number, or None when one of them is NaN. */
  function Read2(f: Form2, parse: string -> Option<real>): (r: Option<M2>)
    ensures r.Some? <==> forall k :: 0 <= k < 4 ==> parse(f[k]).Some?
    ensures r.Some? ==> forall k :: 0 <= k < 4 ==> At2(r.value, k / 2, k % 2) == parse(f[k]).value
  {
    if forall k :: 0 <= k < 4 ==> parse(f[k]).Some? then
      Some(M2(parse(f[0]).value, parse(f[1]).value, parse(f[2]).value, parse(f[3]).value))
    else None
  }

  /** The 3×3 counterpart of `Read2`. */
  function Read3(f: Form3, parse: string -> Option<real>): (r: Option<M3>)
    ensures r.Some? <==> forall k :: 0 <= k < 9 ==> parse(f[k]).Some?
    ensures r.Some? ==> forall k :: 0 <= k < 9 ==> At3(r.value, k / 3, k % 3) == parse(f[k]).value
  {
    if forall k :: 0 <= k < 9 ==> parse(f[k]).Some? then
      Some(M3(parse(f[0]).value, parse(f[1]).value, parse(f[2]).value,
              parse(f[3]).value, parse(f[4]).value, parse(f[5]).value,
              parse(f[6]).value, parse(f[7]).value, parse(f[8]).value))
    else None
  }
}
