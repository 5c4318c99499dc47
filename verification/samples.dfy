/** Concrete lines for particular timestamps, worked out from the definitions. */
module Samples {
  import opened Prelude
  import opened Numerals
  import opened Colors
  import opened Tags
  import opened Spaced
  import opened Lines

  lemma BeBytesZero()
    ensures BeBytes(0) == [0, 0, 0, 0]
  {
  }

  lemma BeBytesMax()
    ensures BeBytes(0xFFFF_FFFF) == [0xFF, 0xFF, 0xFF, 0xFF]
  {
  }

  /** The lowest and highest byte in upper-case hex. */
  lemma Hex2Ends()
    ensures Hex2(0) == "00"
    ensures Hex2(0xFF) == "FF"
  {
  }

  /** The status-bar line spelled out from its bytes, as the format string
      `"{} {} {} {}"` lays it out. */
  lemma XmobarPieces(x: u32)
    ensures var bs := BeBytes(x);
      XmobarFmt(x) == Fc(Gray, Hex2(bs[0])) + " " + Fc(Gray, Hex2(bs[1])) + " "
        + Fc(Green, Hex2(bs[2])) + " " + Fc(LightGray, Hex2(bs[3]))
  {
    var t := XmobarTags(BeBytes(x));
    JoinFour(t[0], t[1], t[2], t[3]);
    assert t == [t[0], t[1], t[2], t[3]];
  }

  /** The plain line spelled out from its bytes. */
  lemma TermPieces(x: u32)
    ensures var bs := BeBytes(x);
      TermFmt(x) == Hex2(bs[0]) + " " + Hex2(bs[1]) + " " + Hex2(bs[2]) + " " + Hex2(bs[3])
  {
    var t := TermPairs(BeBytes(x));
    JoinFour(t[0], t[1], t[2], t[3]);
    assert t == [t[0], t[1], t[2], t[3]];
  }

  lemma GrayZeroTag()
    ensures Fc(Gray, "00") == "<fc=#999999>00</fc>"
  {
  }

  lemma GreenZeroTag()
    ensures Fc(Green, "00") == "<fc=#00ff00>00</fc>"
  {
  }

  lemma LightGrayZeroTag()
    ensures Fc(LightGray, "00") == "<fc=#cccccc>00</fc>"
  {
  }

  lemma EpochTags()
    ensures XmobarTags([0, 0, 0, 0])
      == ["<fc=#999999>00</fc>", "<fc=#999999>00</fc>", "<fc=#00ff00>00</fc>", "<fc=#cccccc>00</fc>"]
  {
    Hex2Ends();
    GrayZeroTag();
    GreenZeroTag();
    LightGrayZeroTag();
  }

  /** At the epoch the status-bar line shows four zero bytes in the palette
      Gray, Gray, Green, LightGray, one space between tags. */
  lemma XmobarAtEpoch()
    ensures XmobarFmt(0)
      == "<fc=#999999>00</fc>" + " " + "<fc=#999999>00</fc>" + " "
       + "<fc=#00ff00>00</fc>" + " " + "<fc=#cccccc>00</fc>"
  {
    BeBytesZero();
    EpochTags();
    JoinFour("<fc=#999999>00</fc>", "<fc=#999999>00</fc>", "<fc=#00ff00>00</fc>", "<fc=#cccccc>00</fc>");
  }

  lemma EpochPairs()
    ensures TermPairs([0, 0, 0, 0]) == ["00", "00", "00", "00"]
  {
    Hex2Ends();
  }

  lemma EpochPairsJoined()
    ensures Join(["00", "00", "00", "00"]) == "00 00 00 00"
  {
    JoinFour("00", "00", "00", "00");
  }

  /** The plain line at the epoch. */
  lemma TermAtEpoch()
    ensures TermFmt(0) == "00 00 00 00"
  {
    BeBytesZero();
    EpochPairs();
    EpochPairsJoined();
  }

  /** The plain line at the last second a `u32` can hold. */
  lemma TermAtMax()
    ensures TermFmt(0xFFFF_FFFF) == "FF FF FF FF"
  {
    BeBytesMax();
    Hex2Ends();
    assert TermPairs([0xFF, 0xFF, 0xFF, 0xFF]) == ["FF", "FF", "FF", "FF"];
    JoinFour("FF", "FF", "FF", "FF");
  }

  lemma CyanTenTag()
    ensures Fc(Cyan, "10") == "<fc=#00ffff>10</fc>"
  {
  }

  lemma LightGrayElevenTag()
    ensures Fc(LightGray, "11") == "<fc=#cccccc>11</fc>"
  {
  }

  lemma BeBytesSample()
    ensures BeBytes(0x0A0B) == [0, 0, 10, 11]
  {
  }

  lemma SampleTwoTags()
    ensures TwoTags(10, 11) == ["<fc=#00ffff>10</fc>", "<fc=#cccccc>11</fc>"]
  {
    assert Decimal(10) == "10" && Decimal(11) == "11";
    CyanTenTag();
    LightGrayElevenTag();
  }

  /** `print_two` of 0x0A0B: the raw low bytes 10 and 11 written in decimal,
      not hex. */
  lemma PrintTwoSample()
    ensures PrintTwo(0x0A0B) == "<fc=#00ffff>10</fc> <fc=#cccccc>11</fc>"
  {
    BeBytesSample();
    SampleTwoTags();
    JoinTwo("<fc=#00ffff>10</fc>", "<fc=#cccccc>11</fc>");
  }
}
