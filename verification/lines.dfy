/** The three lines the clock can print for a timestamp: the coloured
    status-bar line (`XmobarFmt`), the plain hex line (`TermFmt`) and the
    two-byte line of `print_two`, each with a reader that takes it apart. */
module Lines {
  import opened Prelude
  import opened Numerals
  import opened Colors
  import opened Tags
  import opened Spaced

  // ---------------------------------------------------------------------
  // Bytes of a timestamp

  /** Four bytes read big-endian: `d` is bits 24..31, `a` bits 0..7. */
  function Word(d: nat, c: nat, b: nat, a: nat): nat {
    d * 0x100_0000 + c * 0x1_0000 + b * 0x100 + a
  }

  /** `u32::to_be_bytes`: the four bytes of `x`, most significant first. */
  function BeBytes(x: u32): (r: seq<u8>)
    ensures |r| == 4
    ensures x == Word(r[0], r[1], r[2], r[3])
  {
    var y := x / 0x100;
    var z := y / 0x100;
    DivModSplit(x, 0x100);
    DivModSplit(y, 0x100);
    DivModSplit(z, 0x100);
    [z / 0x100, z % 0x100, y % 0x100, x % 0x100]
  }

  /** `u32::from_be_bytes`: four bytes, most significant first, as a number. */
  function FromBeBytes(bs: seq<u8>): u32
    requires |bs| == 4
  {
    Word(bs[0], bs[1], bs[2], bs[3])
  }

  /** Splitting and reassembling are inverse in both directions. */
  lemma BeBytesRoundTrip(x: u32, bs: seq<u8>)
    requires |bs| == 4
    ensures FromBeBytes(BeBytes(x)) == x
    ensures BeBytes(FromBeBytes(bs)) == bs
  {
    var w := FromBeBytes(bs);
    var z: nat := bs[0] as nat * 0x100 + bs[1];
    var y: nat := z * 0x100 + bs[2];
    assert w == y * 0x100 + bs[3];
    DivModOf(y, bs[3], 0x100);
    DivModOf(z, bs[2], 0x100);
    DivModOf(bs[0], bs[1], 0x100);
  }

  /** `print_two` shows the two low bytes: they are `x` modulo 2^16. */
  lemma LowBytes(x: u32)
    ensures x % 0x1_0000 == BeBytes(x)[2] as nat * 0x100 + BeBytes(x)[3]
  {
    var bs := BeBytes(x);
    var y := x / 0x100;
    DivModSplit(x, 0x100);
    DivModSplit(y, 0x100);
    assert x == (y / 0x100) * 0x1_0000 + (bs[2] as nat * 0x100 + bs[3]);
    DivModOf(y / 0x100, bs[2] as nat * 0x100 + bs[3], 0x1_0000);
  }

  // ---------------------------------------------------------------------
  // XmobarFmt

  /** The colour of each byte in the status-bar line, most significant first. */
  const XmobarPalette: seq<Color> := [Gray, Gray, Green, LightGray]

  /** The four tags of the status-bar line: each byte as `Hex2` in an `Fc` tag. */
  function XmobarTags(bs: seq<u8>): (tags: seq<string>)
    requires |bs| == 4
    ensures |tags| == 4
    ensures forall i :: 0 <= i < 4 ==> ' ' !in tags[i] && |tags[i]| == 19
  {
    var tags := [Fc(Gray, Hex2(bs[0])), Fc(Gray, Hex2(bs[1])), Fc(Green, Hex2(bs[2])), Fc(LightGray, Hex2(bs[3]))];
    assert forall i :: 0 <= i < 4 ==> tags[i] == Fc(XmobarPalette[i], Hex2(bs[i]));
    forall i | 0 <= i < 4
      ensures ' ' !in Hex2(bs[i])
    {
      NumeralHasNoSpace(Hex2(bs[i]), 16, Upper);
    }
    tags
  }

  /** `Display for XmobarFmt<u32>`: the tags of the four bytes, coloured
      Gray, Gray, Green, LightGray, joined by single spaces. */
  function XmobarFmt(x: u32): (s: string)
    ensures |s| == 79
  {
    var tags := XmobarTags(BeBytes(x));
    JoinFour(tags[0], tags[1], tags[2], tags[3]);
    assert tags == [tags[0], tags[1], tags[2], tags[3]];
    Join(tags)
  }

  /** The byte inside a colour tag of the given colour, if that is what `s` is. */
  function ParseHex2Tag(s: string, color: Color): (r: Option<u8>)
  {
    var tag :- ParseFc(s);
    if tag.0 == color then ParseHex2(tag.1) else None
  }

  lemma ParseHex2TagIff(s: string, color: Color, b: u8)
    ensures ParseHex2Tag(s, color) == Some(b) <==> s == Fc(color, Hex2(b))
  {
    ParseFcIff(s, color, Hex2(b));
    match ParseFc(s)
    case Some(tag) => ParseHex2Iff(tag.1, b);
    case None =>
  }

  /** Read a status-bar line back into its timestamp. */
  function ParseXmobar(s: string): (r: Option<u32>)
  {
    var parts := Split(s);
    if |parts| != 4 then None
    else
      var d :- ParseHex2Tag(parts[0], XmobarPalette[0]);
      var c :- ParseHex2Tag(parts[1], XmobarPalette[1]);
      var b :- ParseHex2Tag(parts[2], XmobarPalette[2]);
      var a :- ParseHex2Tag(parts[3], XmobarPalette[3]);
      Some(FromBeBytes([d, c, b, a]))
  }

  /** Every status-bar line reads back as its own timestamp. */
  lemma XmobarRoundTrip(x: u32)
    ensures ParseXmobar(XmobarFmt(x)) == Some(x)
  {
    var bs := BeBytes(x);
    var tags := XmobarTags(bs);
    SplitJoin(tags);
    forall i | 0 <= i < 4
      ensures ParseHex2Tag(tags[i], XmobarPalette[i]) == Some(bs[i])
    {
      ParseHex2TagIff(tags[i], XmobarPalette[i], bs[i]);
    }
    assert bs == [bs[0], bs[1], bs[2], bs[3]];
  }

  /** The status-bar reader accepts nothing but status-bar lines. */
  lemma XmobarOnly(s: string, x: u32)
    requires ParseXmobar(s) == Some(x)
    ensures s == XmobarFmt(x)
  {
    var parts := Split(s);
    var d := ParseHex2Tag(parts[0], Gray).value;
    var c := ParseHex2Tag(parts[1], Gray).value;
    var b := ParseHex2Tag(parts[2], Green).value;
    var a := ParseHex2Tag(parts[3], LightGray).value;
    ParseHex2TagIff(parts[0], Gray, d);
    ParseHex2TagIff(parts[1], Gray, c);
    ParseHex2TagIff(parts[2], Green, b);
    ParseHex2TagIff(parts[3], LightGray, a);
    BeBytesRoundTrip(x, [d, c, b, a]);
    JoinSplit(s);
    assert parts == XmobarTags([d, c, b, a]);
  }

  /** The status-bar reader accepts exactly the lines `XmobarFmt` writes and
      gives back the timestamp; so the line determines the timestamp. */
  lemma ParseXmobarIff(s: string, x: u32)
    ensures ParseXmobar(s) == Some(x) <==> s == XmobarFmt(x)
  {
    if s == XmobarFmt(x) {
      XmobarRoundTrip(x);
    }
    if ParseXmobar(s) == Some(x) {
      XmobarOnly(s, x);
    }
  }

  // ---------------------------------------------------------------------
  // TermFmt

  /** The four `Hex2` pieces of the plain line. */
  function TermPairs(bs: seq<u8>): (hs: seq<string>)
    requires |bs| == 4
    ensures |hs| == 4
    ensures forall i :: 0 <= i < 4 ==> ' ' !in hs[i] && |hs[i]| == 2
  {
    var hs := [Hex2(bs[0]), Hex2(bs[1]), Hex2(bs[2]), Hex2(bs[3])];
    forall i | 0 <= i < 4
      ensures ' ' !in hs[i]
    {
      NumeralHasNoSpace(hs[i], 16, Upper);
    }
    hs
  }

  /** `Display for TermFmt<u32>`: the four bytes as `Hex2`, joined by single spaces. */
  function TermFmt(x: u32): (s: string)
    ensures |s| == 11 && s[2] == ' ' && s[5] == ' ' && s[8] == ' '
  {
    var hs := TermPairs(BeBytes(x));
    JoinFour(hs[0], hs[1], hs[2], hs[3]);
    assert hs == [hs[0], hs[1], hs[2], hs[3]];
    Join(hs)
  }

  /** Read a plain hex line back into its timestamp. */
  function ParseTerm(s: string): (r: Option<u32>)
  {
    var parts := Split(s);
    if |parts| != 4 then None
    else
      var d :- ParseHex2(parts[0]);
      var c :- ParseHex2(parts[1]);
      var b :- ParseHex2(parts[2]);
      var a :- ParseHex2(parts[3]);
      Some(FromBeBytes([d, c, b, a]))
  }

  /** Decoding the four pairs of a plain line big-endian gives back `x`. */
  lemma TermRoundTrip(x: u32)
    ensures ParseTerm(TermFmt(x)) == Some(x)
  {
    var bs := BeBytes(x);
    var hs := TermPairs(bs);
    SplitJoin(hs);
    forall i | 0 <= i < 4
      ensures ParseHex2(hs[i]) == Some(bs[i])
    {
      ParseHex2Iff(hs[i], bs[i]);
    }
    assert bs == [bs[0], bs[1], bs[2], bs[3]];
  }

  /** The plain reader accepts nothing but plain lines. */
  lemma TermOnly(s: string, x: u32)
    requires ParseTerm(s) == Some(x)
    ensures s == TermFmt(x)
  {
    var parts := Split(s);
    var d := ParseHex2(parts[0]).value;
    var c := ParseHex2(parts[1]).value;
    var b := ParseHex2(parts[2]).value;
    var a := ParseHex2(parts[3]).value;
    ParseHex2Iff(parts[0], d);
    ParseHex2Iff(parts[1], c);
    ParseHex2Iff(parts[2], b);
    ParseHex2Iff(parts[3], a);
    BeBytesRoundTrip(x, [d, c, b, a]);
    JoinSplit(s);
    assert parts == TermPairs([d, c, b, a]);
  }

  /** The plain reader accepts exactly the lines `TermFmt` writes and gives
      back the timestamp. */
  lemma ParseTermIff(s: string, x: u32)
    ensures ParseTerm(s) == Some(x) <==> s == TermFmt(x)
  {
    if s == TermFmt(x) {
      TermRoundTrip(x);
    }
    if ParseTerm(s) == Some(x) {
      TermOnly(s, x);
    }
  }

  // ---------------------------------------------------------------------
  // print_two

  /** The two tags of `print_two`: the raw low bytes (decimal, no `Hex2`),
      the first Cyan, the second LightGray. */
  function TwoTags(b: u8, a: u8): (tags: seq<string>)
    ensures |tags| == 2
    ensures forall i :: 0 <= i < 2 ==> ' ' !in tags[i] && 18 <= |tags[i]| <= 20
  {
    NumeralHasNoSpace(Decimal(b), 10, Lower);
    NumeralHasNoSpace(Decimal(a), 10, Lower);
    [Fc(Cyan, Decimal(b)), Fc(LightGray, Decimal(a))]
  }

  /** The line `print_two` writes for `x`: its two low bytes, tagged. */
  function PrintTwo(x: u32): (s: string)
    ensures 37 <= |s| <= 41
  {
    var bs := BeBytes(x);
    var tags := TwoTags(bs[2], bs[3]);
    JoinTwo(tags[0], tags[1]);
    assert tags == [tags[0], tags[1]];
    Join(tags)
  }

  /** The decimal byte inside a colour tag of the given colour. */
  function ParseDecimalTag(s: string, color: Color): (r: Option<u8>)
  {
    var tag :- ParseFc(s);
    if tag.0 == color then ParseDecimal(tag.1) else None
  }

  lemma ParseDecimalTagIff(s: string, color: Color, b: u8)
    ensures ParseDecimalTag(s, color) == Some(b) <==> s == Fc(color, Decimal(b))
  {
    ParseFcIff(s, color, Decimal(b));
    match ParseFc(s)
    case Some(tag) => ParseDecimalIff(tag.1, b);
    case None =>
  }

  /** Read a `print_two` line back into the low 16 bits it shows. */
  function ParseTwo(s: string): (r: Option<nat>)
    ensures r.Some? ==> r.value < 0x1_0000
  {
    var parts := Split(s);
    if |parts| != 2 then None
    else
      var b :- ParseDecimalTag(parts[0], Cyan);
      var a :- ParseDecimalTag(parts[1], LightGray);
      Some(b as nat * 0x100 + a)
  }

  /** `print_two` shows only the two low bytes: timestamps that agree below
      bit 16 print the same line. */
  lemma PrintTwoLowBytes(x: u32, y: u32)
    requires x % 0x1_0000 == y % 0x1_0000
    ensures PrintTwo(x) == PrintTwo(y)
  {
    LowBytes(x);
    LowBytes(y);
    DivModUnique(BeBytes(x)[2], BeBytes(x)[3], BeBytes(y)[2], BeBytes(y)[3], 0x100);
  }

  /** Reading a `print_two` line gives back the low 16 bits of `x`. */
  lemma TwoRoundTrip(x: u32)
    ensures ParseTwo(PrintTwo(x)) == Some(x % 0x1_0000)
  {
    var bs := BeBytes(x);
    var tags := TwoTags(bs[2], bs[3]);
    LowBytes(x);
    SplitJoin(tags);
    ParseDecimalTagIff(tags[0], Cyan, bs[2]);
    ParseDecimalTagIff(tags[1], LightGray, bs[3]);
  }

  /** The `print_two` reader accepts nothing but `print_two` lines. */
  lemma TwoOnly(s: string, x: u32)
    requires ParseTwo(s) == Some(x % 0x1_0000)
    ensures s == PrintTwo(x)
  {
    var bs := BeBytes(x);
    var parts := Split(s);
    var b := ParseDecimalTag(parts[0], Cyan).value;
    var a := ParseDecimalTag(parts[1], LightGray).value;
    ParseDecimalTagIff(parts[0], Cyan, b);
    ParseDecimalTagIff(parts[1], LightGray, a);
    LowBytes(x);
    DivModUnique(b, a, bs[2], bs[3], 0x100);
    JoinSplit(s);
    assert parts == TwoTags(bs[2], bs[3]);
  }

  /** The `print_two` reader gives back exactly the low 16 bits, and accepts
      nothing but `print_two` lines. */
  lemma ParseTwoIff(s: string, x: u32)
    ensures ParseTwo(s) == Some(x % 0x1_0000) <==> s == PrintTwo(x)
  {
    if s == PrintTwo(x) {
      TwoRoundTrip(x);
    }
    if ParseTwo(s) == Some(x % 0x1_0000) {
      TwoOnly(s, x);
    }
  }
}
