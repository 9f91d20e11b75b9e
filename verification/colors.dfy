/** The two-valued colour of the raster (`BWColor`) and its conversions to the
    caller-side colour types: `bool`, `System.Drawing.Color` and the `Brush`
    enumeration. */
module Colors {

  /** A colour with one bit of state; `isWhite` is that bit. */
  datatype BWColor = BWColor(isWhite: bool)

  const White: BWColor := BWColor(true)
  const Black: BWColor := BWColor(false)

  /** The caller-side brush enumeration. */
  datatype Brush = WhiteBrush | BlackBrush

  /** A `System.Drawing.Color` value as far as the conversions can tell it
      apart: the known colour White, the known colour Black, or any other
      colour. `Other` also covers colours built from components, such as an
      opaque ARGB white, because `Color` equality compares the known-colour
      identity and not only the components. */
  datatype Color = KnownWhite | KnownBlack | Other(argb: int)

  /** `BWColor` to `bool`: true means white. */
  function ToBool(c: BWColor): (w: bool)
    ensures w <==> c == White
  {
    c.isWhite
  }

  /** `bool` to `BWColor`: true becomes white. */
  function FromBool(w: bool): (c: BWColor)
    ensures ToBool(c) == w
    ensures c == White || c == Black
  {
    BWColor(w)
  }

  /** `BWColor` to `Color`: only the two known colours are produced. */
  function ToColor(c: BWColor): (k: Color)
    ensures k == KnownWhite <==> c == White
    ensures k == KnownBlack <==> c == Black
  {
    if c.isWhite then KnownWhite else KnownBlack
  }

  /** `Color` to `BWColor`: the known colour White becomes white and every
      other colour, whatever its components, becomes black. */
  function FromColor(k: Color): (c: BWColor)
    ensures c == White <==> k == KnownWhite
    ensures k != KnownWhite ==> c == Black
    ensures ToColor(c) == k <==> (k == KnownWhite || k == KnownBlack)
  {
    BWColor(k == KnownWhite)
  }

  /** `BWColor` to `Brush`. */
  function ToBrush(c: BWColor): (b: Brush)
    ensures b == WhiteBrush <==> c == White
    ensures FromBrush(b) == c
  {
    if c.isWhite then WhiteBrush else BlackBrush
  }

  /** `Brush` to `BWColor`. */
  function FromBrush(b: Brush): (c: BWColor)
    ensures c == White <==> b == WhiteBrush
    ensures c == Black <==> b == BlackBrush
  {
    BWColor(b == WhiteBrush)
  }

  /** The `==` operator: two colours are equal exactly when both are white or
      both are black. */
  function Equal(left: BWColor, right: BWColor): (eq: bool)
    ensures eq <==> left == right
    ensures eq <==> ToBool(left) == ToBool(right)
  {
    left.isWhite == right.isWhite
  }

  /** The `!=` operator, the negation of `==`. */
  function NotEqual(left: BWColor, right: BWColor): (ne: bool)
    ensures ne <==> !Equal(left, right)
  {
    left.isWhite != right.isWhite
  }

  /** Every colour survives a trip through `bool`, `Color` and `Brush`, and
      the two-valued caller types survive a trip through `BWColor`. */
  lemma ConversionsRoundTrip(c: BWColor, w: bool, b: Brush)
    ensures FromBool(ToBool(c)) == c && ToBool(FromBool(w)) == w
    ensures FromColor(ToColor(c)) == c
    ensures FromBrush(ToBrush(c)) == c && ToBrush(FromBrush(b)) == b
  {
  }
}
