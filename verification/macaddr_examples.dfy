/**
  The concrete values the unit tests of `lib/macaddr.rb` assert, as lemmas
  about the model. Each test text is first split into its pairs and
  separators, and each pair's value is stated on its own; the general lemmas
  (`ParseSixPairs`, `ToSParse`, `FoldOfFromInt`, `Eui64OfSixOctets`) then do
  the work, so no lemma here has to evaluate a whole address text at once.
 */
module MacAddressExamples {
  import opened Hex
  import opened Join
  import opened MacAddress
  import opened MacAddressProofs

  const OneText := "00:00:00:00:00:01"
  const ColonText := "56:6f:99:d2:aa:f9"
  const DashText := "56-6F-99-D2-AA-F9"
  const DotText := "566f.99d2.aaf9"
  const GroupText := "33:33:00:00:00:01"
  const Eui64Text := "3c:97:0e:7e:52:12"

  // ---------------------------------------------------------------------------
  // The test texts as pairs and separators.
  // ---------------------------------------------------------------------------

  lemma OneTextSplit()
    ensures OneText == "00" + ":" + ("00" + ":" + ("00" + ":" + ("00" + ":" + ("00" + ":" + "01"))))
  {
  }

  lemma ColonTextSplit()
    ensures ColonText == "56" + ":" + ("6f" + ":" + ("99" + ":" + ("d2" + ":" + ("aa" + ":" + "f9"))))
  {
  }

  lemma DashTextSplit()
    ensures DashText == "56" + "-" + ("6F" + "-" + ("99" + "-" + ("D2" + "-" + ("AA" + "-" + "F9"))))
  {
  }

  lemma DotTextSplit()
    ensures DotText == "56" + "" + ("6f" + "." + ("99" + "" + ("d2" + "." + ("aa" + "" + "f9"))))
  {
  }

  lemma GroupTextSplit()
    ensures GroupText == "33" + ":" + ("33" + ":" + ("00" + ":" + ("00" + ":" + ("00" + ":" + "01"))))
  {
  }

  lemma Eui64TextSplit()
    ensures Eui64Text == "3c" + ":" + ("97" + ":" + ("0e" + ":" + ("7e" + ":" + ("52" + ":" + "12"))))
  {
  }

  // ---------------------------------------------------------------------------
  // The value of each pair.
  // ---------------------------------------------------------------------------

  lemma SmallPairValues()
    ensures ChunkValue('0', '0') == 0 && ChunkValue('0', '1') == 1 && ChunkValue('3', '3') == 0x33
  {
  }

  lemma LowerPairValues()
    ensures ChunkValue('5', '6') == 0x56 && ChunkValue('6', 'f') == 0x6f && ChunkValue('9', '9') == 0x99
    ensures ChunkValue('d', '2') == 0xd2 && ChunkValue('a', 'a') == 0xaa && ChunkValue('f', '9') == 0xf9
  {
  }

  lemma UpperPairValues()
    ensures ChunkValue('6', 'F') == 0x6f && ChunkValue('D', '2') == 0xd2
    ensures ChunkValue('A', 'A') == 0xaa && ChunkValue('F', '9') == 0xf9
  {
  }

  lemma Eui64PairValues()
    ensures ChunkValue('3', 'c') == 0x3c && ChunkValue('9', '7') == 0x97 && ChunkValue('0', 'e') == 0x0e
    ensures ChunkValue('7', 'e') == 0x7e && ChunkValue('5', '2') == 0x52 && ChunkValue('1', '2') == 0x12
  {
  }

  // ---------------------------------------------------------------------------
  // The octets of each test address.
  // ---------------------------------------------------------------------------

  lemma OneOctets()
    ensures Parse(OneText).octets == [0, 0, 0, 0, 0, 1]
  {
    OneTextSplit();
    ParseSixPairs("00", ":", "00", ":", "00", ":", "00", ":", "00", ":", "01");
    SmallPairValues();
  }

  lemma ColonOctets()
    ensures Parse(ColonText).octets == [0x56, 0x6f, 0x99, 0xd2, 0xaa, 0xf9]
  {
    ColonTextSplit();
    ParseSixPairs("56", ":", "6f", ":", "99", ":", "d2", ":", "aa", ":", "f9");
    LowerPairValues();
  }

  lemma DashOctets()
    ensures Parse(DashText).octets == [0x56, 0x6f, 0x99, 0xd2, 0xaa, 0xf9]
  {
    DashTextSplit();
    ParseSixPairs("56", "-", "6F", "-", "99", "-", "D2", "-", "AA", "-", "F9");
    LowerPairValues();
    UpperPairValues();
  }

  lemma DotOctets()
    ensures Parse(DotText).octets == [0x56, 0x6f, 0x99, 0xd2, 0xaa, 0xf9]
  {
    DotTextSplit();
    ParseSixPairs("56", "", "6f", ".", "99", "", "d2", ".", "aa", "", "f9");
    LowerPairValues();
  }

  lemma GroupOctets()
    ensures Parse(GroupText).octets == [0x33, 0x33, 0, 0, 0, 1]
  {
    GroupTextSplit();
    ParseSixPairs("33", ":", "33", ":", "00", ":", "00", ":", "00", ":", "01");
    SmallPairValues();
  }

  lemma Eui64Octets()
    ensures Parse(Eui64Text).octets == [0x3c, 0x97, 0x0e, 0x7e, 0x52, 0x12]
  {
    Eui64TextSplit();
    ParseSixPairs("3c", ":", "97", ":", "0e", ":", "7e", ":", "52", ":", "12");
    Eui64PairValues();
  }

  // ---------------------------------------------------------------------------
  // The test assertions.
  // ---------------------------------------------------------------------------

  lemma DefaultTextIsCanonical()
    ensures IsCanonical(DefaultText)
  {
  }

  lemma OneTextIsCanonical()
    ensures IsCanonical(OneText)
  {
  }

  lemma ColonTextIsCanonical()
    ensures IsCanonical(ColonText)
  {
  }

  lemma SmallIntegers()
    ensures FromInt(0, 6) == [0, 0, 0, 0, 0, 0] && FromInt(1, 6) == [0, 0, 0, 0, 0, 1]
    ensures Pow256(6) == 0x1_0000_0000_0000
  {
  }

  /** `MACAddr.new` renders as the zero address and has integer value 0. */
  lemma NewIsZero()
    ensures ToS(New()) == "00:00:00:00:00:00"
    ensures ToI(New()) == 0
  {
    DefaultTextIsCanonical();
    ToSParse(DefaultText);
    SmallIntegers();
    FoldOfFromInt(0, 6);
  }

  /** `00:00:00:00:00:01` renders as itself and has integer value 1. */
  lemma OneIsOne()
    ensures ToS(Parse(OneText)) == OneText
    ensures ToI(Parse(OneText)) == 1
  {
    OneTextIsCanonical();
    ToSParse(OneText);
    OneOctets();
    SmallIntegers();
    FoldOfFromInt(1, 6);
  }

  /** The colon, dash and dot forms hold the same octets. */
  lemma SeparatorFormsAgree()
    ensures Parse(DashText) == Parse(ColonText) && Parse(DotText) == Parse(ColonText)
  {
    ColonOctets();
    DashOctets();
    DotOctets();
  }

  /** All three forms render in the colon form. */
  lemma SeparatorFormsRender()
    ensures ToS(Parse(ColonText)) == "56:6f:99:d2:aa:f9"
    ensures ToS(Parse(DashText)) == "56:6f:99:d2:aa:f9"
    ensures ToS(Parse(DotText)) == "56:6f:99:d2:aa:f9"
  {
    SeparatorFormsAgree();
    ColonTextIsCanonical();
    ToSParse(ColonText);
  }

  /** The zero address is an individual address; `33:33:00:00:00:01` is a group address. */
  lemma GroupBit()
    ensures !IsGroup(New()) && IsIndividual(New())
    ensures IsGroup(Parse(GroupText)) && !IsIndividual(Parse(GroupText))
  {
    GroupOctets();
  }

  lemma Eui64Digits()
    ensures SetUlBit(0x3c) == 0x3e
    ensures HexString(0x3e) == "3e" && HexString(0x97) == "97" && HexString(0x0e) == "e"
    ensures HexString(0x7e) == "7e" && HexString(0x52) == "52" && HexString(0x12) == "12"
  {
  }

  lemma Eui64Rendering()
    ensures "3e" + "97" + [Colon] + ("e" + "ff" + [Colon] + ("fe" + "7e" + [Colon] + ("52" + "12")))
         == "3e97:eff:fe7e:5212"
  {
  }

  /** `3c:97:0e:7e:52:12` gives the identifier `3e97:eff:fe7e:5212`. */
  lemma Eui64OfTestAddress()
    ensures |Parse(Eui64Text).octets| == 6 && Eui64(Parse(Eui64Text)) == "3e97:eff:fe7e:5212"
  {
    Eui64Octets();
    Eui64OfSixOctets(Parse(Eui64Text));
    Eui64Digits();
    Eui64Rendering();
  }

  lemma ShortEui64Rendering()
    ensures "3e" + "97" + [Colon] + ("e" + "ff" + [Colon] + ("fe" + "7e")) == "3e97:eff:fe7e"
  {
  }

  /** The four octets `3c:97:0e:7e` give the three-group identifier `3e97:eff:fe7e`. */
  lemma Eui64OfFourOctetAddress()
    ensures Eui64(MacAddr([0x3c, 0x97, 0x0e, 0x7e])) == "3e97:eff:fe7e"
  {
    var m := MacAddr([0x3c, 0x97, 0x0e, 0x7e]);
    Eui64OfFourOctets(m);
    Eui64Digits();
    ShortEui64Rendering();
  }

  lemma CollisionDigits()
    ensures HexString(0x01) == "1" && HexString(0x23) == "23"
    ensures HexString(0x12) == "12" && HexString(0x03) == "3"
    ensures SetUlBit(0) == 2 && HexString(2) == "2" && HexString(0) == "0"
  {
  }

  /**
    Two different addresses with the same EUI-64 identifier: the last group
    is `"1" + "23"` for one and `"12" + "3"` for the other, because neither
    byte is zero-padded.
   */
  lemma Eui64Collision()
    ensures MacAddr([0, 0, 0, 0, 0x01, 0x23]) != MacAddr([0, 0, 0, 0, 0x12, 0x03])
    ensures Eui64(MacAddr([0, 0, 0, 0, 0x01, 0x23])) == Eui64(MacAddr([0, 0, 0, 0, 0x12, 0x03]))
  {
    CollisionDigits();
    Eui64LastGroupOnly(MacAddr([0, 0, 0, 0, 0x01, 0x23]), MacAddr([0, 0, 0, 0, 0x12, 0x03]));
  }
}
