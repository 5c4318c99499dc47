/** The fixed colour palette of the status-bar clock and its markup text. */
module Colors {
  import opened Prelude
  import opened Numerals

  datatype Color = Gray | LightGray | Red | Yellow | Blue | Green | Cyan

  /** `From<Color> for u32`: the 24-bit RGB value of each colour. */
  function Rgb(c: Color): (v: u32)
    ensures v < 0x100_0000
  {
    match c
    case Gray => 0x99_99_99
    case LightGray => 0xcc_cc_cc
    case Red => 0xff_00_00
    case Yellow => 0xff_00_ff
    case Blue => 0x00_00_ff
    case Green => 0x00_ff_00
    case Cyan => 0x00_ff_ff
  }

  /** No two colours share an RGB value. */
  lemma RgbInjective(c1: Color, c2: Color)
    ensures Rgb(c1) == Rgb(c2) <==> c1 == c2
  {
  }

  /** The colour whose RGB value is `v`, if there is one. */
  function FromRgb(v: nat): (r: Option<Color>)
    ensures r.Some? ==> Rgb(r.value) == v
    ensures r.None? ==> forall c: Color :: Rgb(c) != v
  {
    if v == 0x99_99_99 then Some(Gray)
    else if v == 0xcc_cc_cc then Some(LightGray)
    else if v == 0xff_00_00 then Some(Red)
    else if v == 0xff_00_ff then Some(Yellow)
    else if v == 0x00_00_ff then Some(Blue)
    else if v == 0x00_ff_00 then Some(Green)
    else if v == 0x00_ff_ff then Some(Cyan)
    else None
  }

  /** `FromRgb` inverts `Rgb` exactly. */
  lemma FromRgbIff(v: nat, c: Color)
    ensures FromRgb(v) == Some(c) <==> Rgb(c) == v
  {
  }

  /** `Display for Color`: the colour's six lower-case hex digits, one entry
      per colour. `ColorTextIsPadded` shows each entry is exactly what
      `{:06x}` prints for the colour's `Rgb` value. */
  function ColorText(c: Color): (s: string)
    ensures |s| == 6 && IsNumeral(s, 16, Lower)
  {
    match c
    case Gray => "999999"
    case LightGray => "cccccc"
    case Red => "ff0000"
    case Yellow => "ff00ff"
    case Blue => "0000ff"
    case Green => "00ff00"
    case Cyan => "00ffff"
  }

  /** Each colour is written as `{:06x}` of its RGB value: zero-padded to
      six lower-case hex digits. */
  lemma ColorTextIsPadded(c: Color)
    ensures ColorText(c) == Padded(Rgb(c), 6, 16, Lower)
  {
    var s := ColorText(c);
    SixDigits();
    ValueOfSix(s, Lower);
    assert Value(s, 16, Lower) == Rgb(c);
    ParseFixedIff(s, Rgb(c), 6, 16, Lower);
  }

  /** Six hex digits cover exactly the 24-bit colour values. */
  lemma SixDigits()
    ensures Pow(16, 6) == 0x100_0000
  {
  }

  /** Read six lower-case hex digits back as a palette colour. */
  function ParseColor(s: string): (r: Option<Color>)
    ensures r.Some? ==> |s| == 6
  {
    match ParseFixed(s, 6, 16, Lower)
    case Some(v) => FromRgb(v)
    case None => None
  }

  /** The colour reader accepts exactly the texts `Display for Color` writes. */
  lemma ParseColorIff(s: string, c: Color)
    ensures ParseColor(s) == Some(c) <==> s == ColorText(c)
  {
    SixDigits();
    ColorTextIsPadded(c);
    ParseFixedIff(s, Rgb(c), 6, 16, Lower);
    match ParseFixed(s, 6, 16, Lower)
    case Some(v) => FromRgbIff(v, c);
    case None =>
  }
}
