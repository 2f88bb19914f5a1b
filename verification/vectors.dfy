/**
 The test vectors of `Decimal128Tests` and `BsonDecimalTests`: four words
 and the text `ToString` must produce for them.
 */
module Vectors {
  import opened Wrappers
  import opened DecimalText
  import opened Significand
  import opened Notation
  import opened Decimal128
  import opened CorrectedDigits
  import BsonDecimal

  /**
   A finite value whose significand is spelled by `ds` (no leading zero,
   no zero group below the leading one) prints the sign and `Render` of
   those digits.
   */
  lemma DigitsVector(p: Parts, ds: seq<nat>, text: string)
    requires !Decode(p).IsSpecial()
    requires |ds| >= 1 && AllDigits(ds) && ds[0] != 0
    requires Value(ds) == Decode(p).Significand().Value() && Dense(Value(ds))
    requires SignText(Decode(p)) + Render(Digits(ds, false), Decode(p).exponent, ".") == text
    ensures ToString(Decode(p)) == Success(text)
  {
    var d := Decode(p);
    var v := d.Significand().Value();
    DecodeBounds(p);
    assert Canonical(v) == ds by {
      CanonicalUnique(ds);
    }
    assert Kept(v, 4) == v by {
      KeptIsValue(v, 4);
    }
    OrdinaryText(d, InvariantSeparator);
  }

  /** Four digits read as a number. */
  lemma Value4(a: nat, b: nat, c: nat, d: nat)
    ensures Value([a, b, c, d]) == ((a * 10 + b) * 10 + c) * 10 + d
  {
    assert [a, b, c, d][..3] == [a, b, c];
    assert [a, b, c][..2] == [a, b];
    assert [a, b][..1] == [a];
    assert [a][..0] == [];
    assert Value([a]) == a;
    assert Value([a, b]) == a * 10 + b;
    assert Value([a, b, c]) == (a * 10 + b) * 10 + c;
  }

  /** Joining two digit runs: the values shift by the length of the right run, the texts concatenate. */
  lemma Join(a: seq<nat>, b: seq<nat>, va: nat, vb: nat, ta: string, tb: string)
    requires AllDigits(a) && AllDigits(b)
    requires Value(a) == va && Value(b) == vb && Chars(a) == ta && Chars(b) == tb
    ensures AllDigits(a + b) && Value(a + b) == va * Pow10(|b|) + vb && Chars(a + b) == ta + tb
  {
    ValueAppend(a, b);
    CharsAppend(a, b);
  }

  /** Plain notation with no digit before the separator: `0.`, the padding zeros, the digits. */
  lemma FractionRender(ds: seq<nat>, exponent: int, digits: string, zeros: string)
    requires |ds| >= 1 && AllDigits(ds) && exponent < 0 && |ds| + exponent <= 0
    requires !UseScientific(|ds|, exponent, false)
    requires Chars(ds) == digits && Chars(Zeros(-(|ds| + exponent))) == zeros
    ensures Render(Digits(ds, false), exponent, ".") == "0." + zeros + digits
  {
    assert ds[Max0(|ds| + exponent)..] == ds;
    assert "0" + "." == "0.";
  }

  lemma SpecialVectors()
    ensures ToString(Decode([0x7800_0000, 0, 0, 0])) == Success("Infinity")
    ensures ToString(Decode([0xF800_0000, 0, 0, 0])) == Success("-Infinity")
    ensures ToString(Decode([0x7C00_0000, 0, 0, 0])) == Success("NaN")
    ensures ToString(Decode([0xFC00_0000, 0, 0, 0])) == Success("NaN")
    ensures ToString(Decode([0x7E00_0000, 0, 0, 0])) == Success("NaN")
    ensures ToString(Decode([0xFE00_0000, 0, 0, 0])) == Success("NaN")
    ensures ToString(Decode([0x7C00_0000, 0, 0, 12])) == Success("NaN")
  {
    PositiveInfinityConstant();
    NegativeInfinityConstant();
  }

  lemma OneVector(p: Parts)
    requires p == [0x3040_0000, 0, 0, 1]
    ensures ToString(Decode(p)) == Success("1")
  {
    var d := Decode(p);
    assert !d.IsSpecial() && SignText(d) == "" && d.exponent == 0 && d.Significand().Value() == 1;
    assert Chars([1]) == "1";
    DigitsVector(p, [1], "1");
  }

  lemma ZeroVector(p: Parts)
    requires p == [0x3040_0000, 0, 0, 0]
    ensures ToString(Decode(p)) == Success("0")
  {
    var d := Decode(p);
    assert !d.IsSpecial() && d.exponent == 0 && d.Significand().Value() == 0;
    OrdinaryText(d, InvariantSeparator);
    assert SignText(d) + "0" == "0";
  }

  lemma TwoVector(p: Parts)
    requires p == [0x3040_0000, 0, 0, 2]
    ensures ToString(Decode(p)) == Success("2")
  {
    var d := Decode(p);
    assert !d.IsSpecial() && SignText(d) == "" && d.exponent == 0 && d.Significand().Value() == 2;
    assert Chars([2]) == "2";
    DigitsVector(p, [2], "2");
  }

  lemma MinusOneVector(p: Parts)
    requires p == [0xB040_0000, 0, 0, 1]
    ensures ToString(Decode(p)) == Success("-1")
  {
    var d := Decode(p);
    assert !d.IsSpecial() && SignText(d) == "-" && d.exponent == 0 && d.Significand().Value() == 1;
    assert Chars([1]) == "1";
    DigitsVector(p, [1], "-1");
  }

  lemma MinusZeroVector(p: Parts)
    requires p == [0xB040_0000, 0, 0, 0]
    ensures ToString(Decode(p)) == Success("-0")
  {
    var d := Decode(p);
    assert !d.IsSpecial() && d.exponent == 0 && d.Significand().Value() == 0;
    OrdinaryText(d, InvariantSeparator);
    assert SignText(d) + "0" == "-0";
  }

  lemma TenthVector(p: Parts)
    requires p == [0x303E_0000, 0, 0, 1]
    ensures ToString(Decode(p)) == Success("0.1")
  {
    var d := Decode(p);
    assert !d.IsSpecial() && SignText(d) == "" && d.exponent == -1 && d.Significand().Value() == 1;
    FractionRender([1], -1, "1", "");
    DigitsVector(p, [1], "0.1");
  }

  lemma SmallFractionVector(p: Parts)
    requires p == [0x3034_0000, 0, 0, 0x4D2]
    ensures ToString(Decode(p)) == Success("0.001234")
  {
    var d := Decode(p);
    assert !d.IsSpecial() && SignText(d) == "" && d.exponent == -6 && d.Significand().Value() == 1234;
    SmallFractionRender();
    assert SignText(d) + Render(Digits(Run4, false), d.exponent, ".") == "0.001234";
    DigitsVector(p, Run4, "0.001234");
  }

  /** The plain text of 1234 with exponent -6. */
  lemma SmallFractionRender()
    ensures AllDigits(Run4) && Value(Run4) == 1234
    ensures Render(Digits(Run4, false), -6, ".") == "0.001234"
  {
    Run4Digits();
    FractionRender(Run4, -6, "1234", "00");
    assert "0." + "00" + "1234" == "0.001234";
  }

  /** The digits of 123400000. */
  lemma TrailingZerosDigits()
    ensures var ds := [1, 2, 3, 4] + [0, 0, 0, 0] + [0];
      AllDigits(ds) && Value(ds) == 123400000 && Chars(ds) == "123400000"
  {
    Value4(1, 2, 3, 4);
    Value4(0, 0, 0, 0);
    assert Value([0]) == 0 by {
      assert [0][..0] == [];
    }
    assert Pow10(4) == 10000 && Pow10(1) == 10;
    Join([1, 2, 3, 4], [0, 0, 0, 0], 1234, 0, "1234", "0000");
    Join([1, 2, 3, 4] + [0, 0, 0, 0], [0], 12340000, 0, "12340000", "0");
  }

  lemma TrailingZerosVector(p: Parts)
    requires p == [0x302A_0000, 0, 0, 0x75A_EF40]
    ensures ToString(Decode(p)) == Success("0.00123400000")
  {
    var d := Decode(p);
    assert !d.IsSpecial() && SignText(d) == "" && d.exponent == -11 && d.Significand().Value() == 123400000;
    var ds := [1, 2, 3, 4] + [0, 0, 0, 0] + [0];
    TrailingZerosDigits();
    TrailingZerosRender(ds, d.exponent);
    DigitsVector(p, ds, "0.00123400000");
  }

  /** The plain text of 123400000 with exponent -11. */
  lemma TrailingZerosRender(ds: seq<nat>, e: int)
    requires ds == [1, 2, 3, 4] + [0, 0, 0, 0] + [0] && e == -11
    ensures Render(Digits(ds, false), e, ".") == "0.00123400000"
  {
    TrailingZerosDigits();
    assert Chars(Zeros(2)) == "00";
    FractionRender(ds, e, "123400000", "00");
    assert "0." + "00" + "123400000" == "0.00123400000";
  }

  lemma TwelveDigitVector(p: Parts)
    requires p == [0x3040_0000, 0, 0x1C, 0xBE99_1A14]
    ensures ToString(Decode(p)) == Success("123456789012")
  {
    var d := Decode(p);
    assert !d.IsSpecial() && SignText(d) == "" && d.exponent == 0;
    assert d.Significand().Value() == 123456789012;
    Run12Digits();
    assert Dense(123456789012) by {
      assert Dense(123);
    }
    assert !UseScientific(12, 0, false);
    DigitsVector(p, Run12, "123456789012");
  }

  /**
   The digits `1234567890` repeated, built four digits at a time: `RunN`
   holds the first `N`. Each `RunNDigits` lemma adds one chunk, so no
   proof has to take apart a 34-element literal at once.
   */
  const Run4: seq<nat> := [1, 2, 3, 4]
  const Run8: seq<nat> := Run4 + [5, 6, 7, 8]
  const Run12: seq<nat> := Run8 + [9, 0, 1, 2]
  const Run16: seq<nat> := Run12 + [3, 4, 5, 6]
  const Run20: seq<nat> := Run16 + [7, 8, 9, 0]
  const Run24: seq<nat> := Run20 + [1, 2, 3, 4]
  const Run28: seq<nat> := Run24 + [5, 6, 7, 8]
  const Run32: seq<nat> := Run28 + [9, 0, 1, 2]
  const Run34: seq<nat> := Run32 + [3, 4]

  lemma Run4Digits()
    ensures AllDigits(Run4) && Value(Run4) == 1234 && Chars(Run4) == "1234"
  {
    Value4(1, 2, 3, 4);
  }

  lemma Run8Digits()
    ensures AllDigits(Run8) && Value(Run8) == 12345678
    ensures Chars(Run8) == "12345678"
  {
    Run4Digits();
    Value4(5, 6, 7, 8);
    assert Pow10(4) == 10000;
    Join(Run4, [5, 6, 7, 8], 1234, 5678, "1234", "5678");
  }

  lemma Run12Digits()
    ensures AllDigits(Run12) && Value(Run12) == 123456789012
    ensures Chars(Run12) == "123456789012"
  {
    Run8Digits();
    Value4(9, 0, 1, 2);
    assert Pow10(4) == 10000;
    Join(Run8, [9, 0, 1, 2], 12345678, 9012, "12345678", "9012");
  }

  lemma Run16Digits()
    ensures AllDigits(Run16) && Value(Run16) == 1234567890123456
    ensures Chars(Run16) == "1234567890123456"
  {
    Run12Digits();
    Value4(3, 4, 5, 6);
    assert Pow10(4) == 10000;
    Join(Run12, [3, 4, 5, 6], 123456789012, 3456, "123456789012", "3456");
  }

  lemma Run20Digits()
    ensures AllDigits(Run20) && Value(Run20) == 12345678901234567890
    ensures Chars(Run20) == "12345678901234567890"
  {
    Run16Digits();
    Value4(7, 8, 9, 0);
    assert Pow10(4) == 10000;
    Join(Run16, [7, 8, 9, 0], 1234567890123456, 7890, "1234567890123456", "7890");
  }

  lemma Run24Digits()
    ensures AllDigits(Run24) && Value(Run24) == 123456789012345678901234
    ensures Chars(Run24) == "123456789012345678901234"
  {
    Run20Digits();
    Value4(1, 2, 3, 4);
    assert Pow10(4) == 10000;
    Join(Run20, [1, 2, 3, 4], 12345678901234567890, 1234, "12345678901234567890", "1234");
  }

  lemma Run28Digits()
    ensures AllDigits(Run28) && Value(Run28) == 1234567890123456789012345678
    ensures Chars(Run28) == "1234567890123456789012345678"
  {
    Run24Digits();
    Value4(5, 6, 7, 8);
    assert Pow10(4) == 10000;
    Join(Run24, [5, 6, 7, 8], 123456789012345678901234, 5678, "123456789012345678901234", "5678");
  }

  lemma Run32Digits()
    ensures AllDigits(Run32) && Value(Run32) == 12345678901234567890123456789012
    ensures Chars(Run32) == "12345678901234567890123456789012"
  {
    Run28Digits();
    Value4(9, 0, 1, 2);
    assert Pow10(4) == 10000;
    Join(Run28, [9, 0, 1, 2], 1234567890123456789012345678, 9012, "1234567890123456789012345678", "9012");
  }

  lemma Run34Digits()
    ensures |Run34| == 34 && AllDigits(Run34) && Value(Run34) == 1234567890123456789012345678901234
    ensures Chars(Run34) == "1234567890123456789012345678901234"
  {
    Run32Digits();
    assert Value([3, 4]) == 34 by {
      assert [3, 4][..1] == [3];
      assert [3][..0] == [];
    }
    assert Pow10(2) == 100;
    Join(Run32, [3, 4], 12345678901234567890123456789012, 34, "12345678901234567890123456789012", "34");
  }

  /** The plain text of the 34 digits with exponent -34. */
  lemma ThirtyFourDigitRender()
    ensures Render(Digits(Run34, false), -34, ".") == "0." + "1234567890123456789012345678901234"
  {
    Run34Digits();
    FractionRender(Run34, -34, "1234567890123456789012345678901234", "");
  }

  lemma ThirtyFourDigitText()
    ensures "0." + "1234567890123456789012345678901234" == "0.1234567890123456789012345678901234"
  {
  }

  lemma ThirtyFourDigitDense()
    ensures Dense(1234567890123456789012345678901234)
  {
    assert Dense(1234567890123456789012345);
    assert Dense(1234567890123456);
    assert Dense(1234567);
  }

  lemma ThirtyFourDigitVector(p: Parts)
    requires p == [0x2FFC_3CDE, 0x6FFF_9732, 0xDE82_5CD0, 0x7E96_AFF2]
    ensures ToString(Decode(p)) == Success("0.1234567890123456789012345678901234")
  {
    var d := Decode(p);
    assert !d.IsSpecial() && SignText(d) == "" && d.exponent == -34;
    assert d.Significand().Value() == 1234567890123456789012345678901234;
    Run34Digits();
    ThirtyFourDigitDense();
    var text := "0.1234567890123456789012345678901234";
    assert SignText(d) + Render(Digits(Run34, false), d.exponent, ".") == text by {
      ThirtyFourDigitRender();
      ThirtyFourDigitText();
    }
    DigitsVector(p, Run34, text);
  }

  /** A vector `Decimal128` prints as `text` prints the same through `BsonDecimal`. */
  lemma BsonVector(p: Parts, text: string)
    requires ToString(Decode(p)) == Success(text)
    ensures BsonDecimal.ToString(BsonDecimal.BsonDecimal(p)) == Success(text)
  {
    BsonDecimal.ToStringAgrees(p);
  }

  /** The `BsonDecimalTests` vectors: the raw-word formatter prints the same texts. */
  lemma BsonSpecialVectors()
    ensures BsonDecimal.ToString(BsonDecimal.BsonDecimal([0x7800_0000, 0, 0, 0])) == Success("Infinity")
    ensures BsonDecimal.ToString(BsonDecimal.BsonDecimal([0xF800_0000, 0, 0, 0])) == Success("-Infinity")
    ensures BsonDecimal.ToString(BsonDecimal.BsonDecimal([0x7C00_0000, 0, 0, 0])) == Success("NaN")
    ensures BsonDecimal.ToString(BsonDecimal.BsonDecimal([0xFC00_0000, 0, 0, 0])) == Success("NaN")
    ensures BsonDecimal.ToString(BsonDecimal.BsonDecimal([0x7E00_0000, 0, 0, 0])) == Success("NaN")
    ensures BsonDecimal.ToString(BsonDecimal.BsonDecimal([0xFE00_0000, 0, 0, 0])) == Success("NaN")
    ensures BsonDecimal.ToString(BsonDecimal.BsonDecimal([0x7C00_0000, 0, 0, 12])) == Success("NaN")
  {
    SpecialVectors();
    BsonVector([0x7800_0000, 0, 0, 0], "Infinity");
    BsonVector([0xF800_0000, 0, 0, 0], "-Infinity");
    BsonVector([0x7C00_0000, 0, 0, 0], "NaN");
    BsonVector([0xFC00_0000, 0, 0, 0], "NaN");
    BsonVector([0x7E00_0000, 0, 0, 0], "NaN");
    BsonVector([0xFE00_0000, 0, 0, 0], "NaN");
    BsonVector([0x7C00_0000, 0, 0, 12], "NaN");
  }

  lemma BsonOneVector(p: Parts)
    requires p == [0x3040_0000, 0, 0, 1]
    ensures BsonDecimal.ToString(BsonDecimal.BsonDecimal(p)) == Success("1")
  {
    OneVector(p);
    BsonVector(p, "1");
  }

  lemma BsonTwoVector(p: Parts)
    requires p == [0x3040_0000, 0, 0, 2]
    ensures BsonDecimal.ToString(BsonDecimal.BsonDecimal(p)) == Success("2")
  {
    TwoVector(p);
    BsonVector(p, "2");
  }

  lemma BsonZeroVector(p: Parts)
    requires p == [0x3040_0000, 0, 0, 0]
    ensures BsonDecimal.ToString(BsonDecimal.BsonDecimal(p)) == Success("0")
  {
    ZeroVector(p);
    BsonVector(p, "0");
  }

  lemma BsonMinusZeroVector(p: Parts)
    requires p == [0xB040_0000, 0, 0, 0]
    ensures BsonDecimal.ToString(BsonDecimal.BsonDecimal(p)) == Success("-0")
  {
    MinusZeroVector(p);
    BsonVector(p, "-0");
  }

  lemma BsonMinusOneVector(p: Parts)
    requires p == [0xB040_0000, 0, 0, 1]
    ensures BsonDecimal.ToString(BsonDecimal.BsonDecimal(p)) == Success("-1")
  {
    MinusOneVector(p);
    BsonVector(p, "-1");
  }

  // ---------------------------------------------------------------------
  // A zero group below the leading one
  // ---------------------------------------------------------------------

  /** The digits of 10^18 + 1, cut where the separator goes at exponent -9. */
  const Z4: seq<nat> := [0, 0, 0, 0]
  const Head10: seq<nat> := [1, 0] + Z4 + Z4
  const Tail9: seq<nat> := Z4 + Z4 + [1]

  lemma Z4Digits()
    ensures AllDigits(Z4) && Value(Z4) == 0 && Chars(Z4) == "0000"
  {
    Value4(0, 0, 0, 0);
  }

  lemma Head10Digits()
    ensures AllDigits(Head10) && Value(Head10) == Billion && Chars(Head10) == "1000000000"
  {
    Z4Digits();
    assert Value([1, 0]) == 10 by {
      assert [1, 0][..1] == [1];
      assert [1][..0] == [];
    }
    assert Pow10(4) == 10000;
    Join([1, 0], Z4, 10, 0, "10", "0000");
    Join([1, 0] + Z4, Z4, 100000, 0, "100000", "0000");
  }

  lemma Tail9Digits()
    ensures AllDigits(Tail9) && Value(Tail9) == 1 && Chars(Tail9) == "000000001"
  {
    Z4Digits();
    assert Value([1]) == 1 by {
      assert [1][..0] == [];
    }
    assert Pow10(4) == 10000 && Pow10(1) == 10;
    Join(Z4, Z4, 0, 0, "0000", "0000");
    Join(Z4 + Z4, [1], 0, 1, "00000000", "1");
  }

  lemma MiddleZeroGroupDigits()
    ensures AllDigits(Head10 + Tail9) && (Head10 + Tail9)[0] != 0
    ensures Value(Head10 + Tail9) == 1_000_000_000_000_000_001
    ensures Chars(Head10) == "1000000000" && Chars(Tail9) == "000000001"
  {
    Head10Digits();
    Tail9Digits();
    Pow10Nine();
    Join(Head10, Tail9, Billion, 1, "1000000000", "000000001");
  }

  /**
   Significand 10^18 + 1 at exponent -9, that is 1000000000.000000001: the
   digit loop as written stops at the zero middle group, keeps only the
   last digit and prints 1E-9; the corrected loop prints the value.
   */
  lemma MiddleZeroGroupVector(p: Parts)
    requires p == [0x302E_0000, 0, 0x0DE0_B6B3, 0xA764_0001]
    ensures ToString(Decode(p)) == Success("1E-9")
    ensures ToStringCorrected(Decode(p)) == Success("1000000000.000000001")
  {
    var d := Decode(p);
    assert !d.IsSpecial() && SignText(d) == "" && d.exponent == -9;
    assert d.Significand() == Sig(0, 0, 0x0DE0B6B3, 0xA7640001);
    MiddleZeroGroupAsWritten(d);
    MiddleZeroGroupCorrected(d);
  }

  lemma MiddleZeroGroupAsWritten(d: Decimal128)
    requires !d.IsSpecial() && SignText(d) == "" && d.exponent == -9
    requires d.Significand() == Sig(0, 0, 0x0DE0B6B3, 0xA7640001)
    ensures ToString(d) == Success("1E-9")
  {
    MiddleZeroGroupDropsDigits();
    ToStringDigits(d, InvariantSeparator);
    DroppedRender(d.exponent);
  }

  /** The one digit left, at exponent -9, is in scientific notation. */
  lemma DroppedRender(e: int)
    requires e == -9
    // `"" +` is the empty sign, so the caller's `SignText(d) + Render(...)` matches directly
    ensures "" + Render(Digits([1], false), e, ".") == "1E-9"
  {
    ScientificDigitText(Digits([1], false), e);
    assert Chars([1]) == "1";
    assert IntToString(ScientificExponent(1, e)) == "-9" by {
      assert Canonical(9) == [9];
    }
  }

  lemma MiddleZeroGroupCorrected(d: Decimal128)
    requires !d.IsSpecial() && SignText(d) == "" && d.exponent == -9
    requires d.Significand() == Sig(0, 0, 0x0DE0B6B3, 0xA7640001)
    ensures ToStringCorrected(d) == Success("1000000000.000000001")
  {
    var ds := Head10 + Tail9;
    assert SignificantAll(d.Significand()) == Success(Digits(ds, false)) by {
      MiddleZeroGroupDigits();
      MiddleZeroGroupKept();
      CanonicalUnique(ds);
    }
    KeptRender(ds, d.exponent);
  }

  /** All nineteen digits at exponent -9: ten before the separator, nine after. */
  lemma KeptRender(ds: seq<nat>, e: int)
    requires ds == Head10 + Tail9 && e == -9
    ensures AllDigits(ds) && |ds| >= 1
    // `"" +` is the empty sign, so the caller's `SignText(d) + Render(...)` matches directly
    ensures "" + Render(Digits(ds, false), e, ".") == "1000000000.000000001"
  {
    MiddleZeroGroupDigits();
    WholeFractionText(Digits(ds, false), e);
    assert ds[..10] == Head10 && ds[10..] == Tail9;
    KeptText();
  }

  lemma KeptText()
    ensures Chars(Head10) + "." + Chars(Tail9) == "1000000000.000000001"
  {
    Head10Digits();
    Tail9Digits();
  }
}
