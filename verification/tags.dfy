/** The two wrapper types of the formatting module, `Fc` and `Hex2`, and the
    plain `Display` of a byte that `print_two` puts inside its tags. */
module Tags {
  import opened Prelude
  import opened Numerals
  import opened Colors

  // ---------------------------------------------------------------------
  // Hex2: `{:02X}`

  /** `Hex2(b)`: the byte as two upper-case hex digits, high nibble first. */
  function Hex2(b: u8): (s: string)
    ensures |s| == 2 && IsNumeral(s, 16, Upper)
  {
    [Digit(b / 16, Upper), Digit(b % 16, Upper)]
  }

  /** Read two upper-case hex digits back as a byte. */
  function ParseHex2(s: string): (r: Option<u8>)
    ensures r.Some? ==> |s| == 2
  {
    assert Pow(16, 2) == 0x100;
    match ParseFixed(s, 2, 16, Upper)
    case Some(v) => Some(v)
    case None => None
  }

  /** The two nibbles are what `{:02X}` prints: the byte zero-padded to two
      upper-case hex digits. */
  lemma Hex2IsPadded(b: u8)
    ensures Hex2(b) == Padded(b, 2, 16, Upper)
  {
    var s := Hex2(b);
    assert s[..1] == [s[0]];
    ValueOfDigit(s[0], 16, Upper);
    assert Value(s, 16, Upper) == (b / 16) * 16 + b % 16;
    assert Pow(16, 2) == 0x100;
    ParseFixedIff(s, b, 2, 16, Upper);
  }

  /** The byte reader accepts exactly the texts `Hex2` writes. */
  lemma ParseHex2Iff(s: string, b: u8)
    ensures ParseHex2(s) == Some(b) <==> s == Hex2(b)
  {
    Hex2IsPadded(b);
    assert Pow(16, 2) == 0x100;
    ParseFixedIff(s, b, 2, 16, Upper);
  }

  // ---------------------------------------------------------------------
  // Display for u8: `{}`

  /** A byte in decimal, shortest form, as `Display for u8` writes it. */
  function Decimal(b: u8): (s: string)
    ensures 1 <= |s| <= 3
  {
    DigitsLength(b, 10, Lower, 2);
    assert Pow(10, 3) == 1000;
    Digits(b, 10, Lower)
  }

  /** Read a decimal byte in shortest form. */
  function ParseDecimal(s: string): (r: Option<u8>)
    ensures r.Some? ==> 1 <= |s|
  {
    match ParseCanonical(s, 10, Lower)
    case Some(v) => if v < 0x100 then Some(v) else None
    case None => None
  }

  /** The decimal reader accepts exactly the texts `Decimal` writes. */
  lemma ParseDecimalIff(s: string, b: u8)
    ensures ParseDecimal(s) == Some(b) <==> s == Decimal(b)
  {
    ParseCanonicalIff(s, b, 10, Lower);
  }

  // ---------------------------------------------------------------------
  // Fc: `<fc=#rrggbb>…</fc>`

  const Open: string := "<fc=#"
  const Close: string := "</fc>"

  /** `Fc(c, content)`: the content wrapped in an xmobar foreground-colour tag. */
  function Fc(c: Color, content: string): (s: string)
    ensures |s| == |content| + 17
    ensures ' ' !in content ==> ' ' !in s
  {
    Open + ColorText(c) + ">" + content + Close
  }

  /** Read a colour tag back into its colour and its content. */
  function ParseFc(s: string): (r: Option<(Color, string)>)
    ensures r.Some? ==> |r.value.1| + 17 == |s|
  {
    if |s| >= 17 && s[..5] == Open && s[11] == '>' && s[|s| - 5..] == Close then
      var c :- ParseColor(s[5..11]);
      Some((c, s[12..|s| - 5]))
    else None
  }

  /** A tag `Fc` writes reads back as its colour and content. */
  lemma FcRoundTrip(c: Color, content: string)
    ensures ParseFc(Fc(c, content)) == Some((c, content))
  {
    var f := Fc(c, content);
    var n := |f|;
    assert f[..5] == Open;
    assert f[5..11] == ColorText(c);
    assert f[11] == '>';
    assert f[12..n - 5] == content;
    assert f[n - 5..] == Close;
    ParseColorIff(f[5..11], c);
  }

  /** The tag reader accepts nothing but tags `Fc` writes. */
  lemma FcOnly(s: string, c: Color, content: string)
    requires ParseFc(s) == Some((c, content))
    ensures s == Fc(c, content)
  {
    ParseColorIff(s[5..11], c);
    assert s == s[..5] + s[5..11] + [s[11]] + s[12..|s| - 5] + s[|s| - 5..];
  }

  /** The tag reader accepts exactly the texts `Fc` writes, and gives back
      the colour and the content. */
  lemma ParseFcIff(s: string, c: Color, content: string)
    ensures ParseFc(s) == Some((c, content)) <==> s == Fc(c, content)
  {
    if s == Fc(c, content) {
      FcRoundTrip(c, content);
    }
    if ParseFc(s) == Some((c, content)) {
      FcOnly(s, c, content);
    }
  }
}
