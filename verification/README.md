# Decimal128 decoding and printing in the MongoDB C# driver

This project models how the driver's BSON object model decodes a decimal128
value and prints it. A decimal128 is four 32-bit words in the binary integer
decimal (BID) encoding of section 3.5.2 of IEEE 754-2008. The model covers:

- `Decimal128`: the struct, its constructors from four words and from an
  `int`, the four special constants, the `Is*` predicates, the re-encoding
  `GetParts`, and `ToString`.
- `BsonDecimal`: a BSON value that keeps the raw words and prints them by a
  second copy of the same algorithm.

The modules follow that structure:

- `Wrappers` and `Errors`: `Option`, `Result`, and the exceptions the code
  throws (`ArgumentNullException`, `ArgumentException`, and
  `IndexOutOfRangeException`).
- `DecimalText`: digit sequences and their values, powers of ten, and the
  decimal text of an `int` together with its parser.
- `Significand`: the significand as four words, a number below 2^114, and
  `DivideByOneBillion` as exact long division by 10^9. It also holds the
  digit loop as written: the outer loop over 9-digit groups (`Collect`, one
  group written by `WriteGroup`), which ends at the first zero group, and
  the loop that skips leading zero slots (`FirstNonzero`). Both are pure
  functions. The array-writing methods `ExtractDigits`, `FillGroups`,
  `WriteRemainder` and `SkipZeros` are proved equal to those functions.
- `Notation`: the choice between scientific and plain notation, the text of
  each, and the methods that build the text the way the `StringBuilder`
  code does. A small parser `Denotation` reads a text back into a
  coefficient and an exponent. The `Render*Denotes` lemmas are stated
  against it.
- `Decimal128`: the decoded struct, `New` (the `uint[]` constructor),
  `FromInt`, `GetParts`, the predicates, and `ToString` with its separator
  as a parameter. The constructor's field extraction is split into
  `ExponentFieldOf` (the 14-bit biased exponent) and `HighFieldOf` (the
  high significand word), and `GetParts` into `BiasedExponent` (re-biasing)
  and `FirstWord` (assembling the first word); each is covered by the rows
  of the member it belongs to.
- `BsonDecimal`: the constructor and `ToString` on raw words. It is proved
  equal to `Decimal128.ToString` for every four-word input.
- `CorrectedDigits`: the digit loop with a zero group skipped rather than
  ending the loop, and the formatter built on it (see "## Findings").
- `Vectors`: the unit-test vectors of both classes, as lemmas.

`Decimal128.ToString` and `BsonDecimal.ToString` model the code as written,
quirks included. The corrected formatter `CorrectedDigits.ToStringCorrected`
is kept apart from them. It is the definition for which the intended
property "every finite value prints as text that reads back as its own
coefficient and exponent" is proved.

## Model

| member | source | states |
|---|---|---|
| Decimal128.New | src/MongoDB.Bson/ObjectModel/Decimal128.cs:58-93 | a null array fails with `ArgumentNullException("parts")`; a length other than 4 fails with `ArgumentException("Must be of length 4.")`; every other array succeeds, whatever its bits, and yields its decoding |
| Decimal128.Decode | src/MongoDB.Bson/ObjectModel/Decimal128.cs:58-93 | no contract; its meaning is given by `DecodeCombination`, `DecodeLayout` and `DecodeBounds` |
| Decimal128.NegateInt32 | src/MongoDB.Bson/ObjectModel/Decimal128.cs:48 | no contract; its meaning is given by `FromInt`, whose significand is 2^31 for `int.MinValue` |
| Decimal128.FromInt | src/MongoDB.Bson/ObjectModel/Decimal128.cs:41-56 | the flags byte is 0x80 for negative inputs and 0 otherwise, so the result is a finite number and never a NaN or an infinity; the exponent is 0 and the significand is the magnitude, including 2^31 for `int.MinValue` |
| Decimal128.DecodeCombination | src/MongoDB.Bson/ObjectModel/Decimal128.cs:69-76 | the combination is bits 30..26 of the first word; the extended form is chosen exactly when its two high bits are set; the sign is bit 31 |
| Decimal128.DecodeLayout | src/MongoDB.Bson/ObjectModel/Decimal128.cs:69-92 | normal form: exponent = bits 30..17 − 6176, high word = bits 16..0. Extended form: exponent = bits 28..15 − 6176, high word = bits 14..0 + 2^17. The other three words are copied unchanged |
| Decimal128.DecodeBounds | src/MongoDB.Bson/ObjectModel/Decimal128.cs:69-92 | every decoded significand is below 2^114, hence below 10^36, so four divisions and 36 slots suffice; the exponent lies in [−6176, 10207] |
| Decimal128.BiasedExponentRoundTrip | src/MongoDB.Bson/ObjectModel/Decimal128.cs:116-133 | re-biasing the decoded exponent gives back exactly the 14-bit field the constructor read, in either form |
| Decimal128.GetParts | src/MongoDB.Bson/ObjectModel/Decimal128.cs:109-143 | no contract; its meaning is given by `GetPartsRoundTrip` and `GetPartsExactIff` |
| Decimal128.GetPartsRoundTrip | src/MongoDB.Bson/ObjectModel/Decimal128.cs:109-143 | `GetParts` inverts the constructor for every normal-form input; for every extended-form input it returns the input with bit 17 of the first word set |
| Decimal128.GetPartsExactIff | src/MongoDB.Bson/ObjectModel/Decimal128.cs:109-143 | the round trip is exact if and only if the input is in normal form or already has bit 17 set |
| Decimal128.PositiveInfinityParts | src/MongoDB.Bson/ObjectModel/Decimal128.cs:137 | `PositiveInfinity` re-encodes as `0x78020000, 0, 0, 0`, not as the words it was built from; decoding those words gives an exponent 4 higher |
| Decimal128.GetPartsMasked | src/MongoDB.Bson/ObjectModel/Decimal128.cs:137 | no contract; its meaning is given by `GetPartsMaskedRoundTrip` |
| Decimal128.GetPartsMaskedRoundTrip | src/MongoDB.Bson/ObjectModel/Decimal128.cs:137 | with the implicit bit masked off before the OR, the re-encoding inverts the constructor for every four words |
| Decimal128.IsInfinity | src/MongoDB.Bson/ObjectModel/Decimal128.cs:95 | no contract; its meaning is given by `PredicateMeanings` |
| Decimal128.IsNegative | src/MongoDB.Bson/ObjectModel/Decimal128.cs:97 | no contract; its meaning is given by `PredicateMeanings` |
| Decimal128.IsNegativeInfinity | src/MongoDB.Bson/ObjectModel/Decimal128.cs:99 | no contract; its meaning is given by `PredicateMeanings` |
| Decimal128.IsPositiveInfinity | src/MongoDB.Bson/ObjectModel/Decimal128.cs:101 | no contract; its meaning is given by `PredicateMeanings` |
| Decimal128.IsNaN | src/MongoDB.Bson/ObjectModel/Decimal128.cs:103 | no contract; its meaning is given by `PredicateMeanings` |
| Decimal128.IsQNaN | src/MongoDB.Bson/ObjectModel/Decimal128.cs:105 | no contract; its meaning is given by `PredicateMeanings` |
| Decimal128.IsSNaN | src/MongoDB.Bson/ObjectModel/Decimal128.cs:107 | no contract; its meaning is given by `PredicateMeanings` |
| Decimal128.PredicateMeanings | src/MongoDB.Bson/ObjectModel/Decimal128.cs:95-107 | each predicate in terms of the combination field and the signaling bit; `IsNegativeInfinity` holds for every negative special value, negative NaNs included |
| Decimal128.OrdinaryPredicates | src/MongoDB.Bson/ObjectModel/Decimal128.cs:95-107 | no special-value predicate holds for a finite value |
| Decimal128.NegativeInfinityConstant | src/MongoDB.Bson/ObjectModel/Decimal128.cs:20-21 | exactly the negative-infinity predicates hold, and it prints "-Infinity" |
| Decimal128.PositiveInfinityConstant | src/MongoDB.Bson/ObjectModel/Decimal128.cs:23-24 | exactly the positive-infinity predicates hold, and it prints "Infinity" |
| Decimal128.QNaNConstant | src/MongoDB.Bson/ObjectModel/Decimal128.cs:26-27 | exactly `IsQNaN` and `IsNaN` hold, and it prints "NaN" |
| Decimal128.SNaNConstant | src/MongoDB.Bson/ObjectModel/Decimal128.cs:29-30 | exactly `IsSNaN` and `IsNaN` hold, and it prints "NaN" with no signaling mark |
| Decimal128.SpecialText | src/MongoDB.Bson/ObjectModel/Decimal128.cs:154-178 | combination `11111` prints "NaN" whatever the sign and other bits; `11110` prints "Infinity" after the sign |
| Decimal128.NaNTextIff | src/MongoDB.Bson/ObjectModel/Decimal128.cs:171-177 | the text is "NaN" if and only if the value is a NaN |
| Decimal128.PositiveInfinityTextIff | src/MongoDB.Bson/ObjectModel/Decimal128.cs:164-170 | the text is "Infinity" if and only if the value is positive infinity |
| Decimal128.NegativeInfinityTextIff | src/MongoDB.Bson/ObjectModel/Decimal128.cs:154-170 | the text is "-Infinity" if and only if `IsNegativeInfinity` holds and the value is not a NaN |
| Decimal128.ToStringWith | src/MongoDB.Bson/ObjectModel/Decimal128.cs:150-291 | no contract; its meaning is given by `SpecialText`, `OrdinaryText`, `OrdinaryTextLead` and `TextDenotes` |
| Decimal128.ToString | src/MongoDB.Bson/ObjectModel/Decimal128.cs:145-148 | no contract; `ToStringWith` at the invariant separator, so the same lemmas give its meaning |
| Decimal128.OrdinaryText | src/MongoDB.Bson/ObjectModel/Decimal128.cs:180-250 | a zero significand prints "0" at exponent 0 and "0E<exponent>" otherwise; a nonzero multiple of 10^9 throws `IndexOutOfRangeException`; otherwise the digits printed are those of the significand's low run of nonzero 9-digit groups |
| Decimal128.OrdinaryTextLead | src/MongoDB.Bson/ObjectModel/Decimal128.cs:154-158 | a printed finite value starts with '-' exactly when it is negative, followed by a digit |
| Decimal128.TextDenotes | src/MongoDB.Bson/ObjectModel/Decimal128.cs:180-288 | whenever printing succeeds, the unsigned text reads back as the kept low groups of the significand at the value's exponent |
| Decimal128.SignedRenderDenotes | src/MongoDB.Bson/ObjectModel/Decimal128.cs:228-288 | the signed rendering of any digit string reads back as its value at the exponent; 'E' appears if and only if scientific notation is chosen |
| Decimal128.DenseTextDenotes | src/MongoDB.Bson/ObjectModel/Decimal128.cs:180-288 | when no 9-digit group below the leading one is zero, the text reads back as exactly the decoded significand and exponent, and 'E' appears if and only if the notation rule says so |
| Decimal128.DenseValueText | src/MongoDB.Bson/ObjectModel/Decimal128.cs:180-288 | the same for any finite struct whose significand is below 10^36 |
| Decimal128.SmallIntegerText | src/MongoDB.Bson/ObjectModel/Decimal128.cs:251-259 | an integer of magnitude up to 2^31 at exponent 0 that is not a multiple of 10^9 prints as its sign and plain decimal digits |
| Decimal128.FromIntText | src/MongoDB.Bson/ObjectModel/Decimal128.cs:41-56 | `new Decimal128(i).ToString()` is the decimal text of `i`, except for nonzero multiples of 10^9, which throw |
| Decimal128.OneBillionIntThrows | src/MongoDB.Bson/ObjectModel/Decimal128.cs:219-226 | `new Decimal128(1000000000).ToString()` reads slot 36 and throws `IndexOutOfRangeException` |
| Decimal128.MinusOneText | src/MongoDB.Bson.Tests/ObjectModel/Decimal128Tests.cs:49-55 | `new Decimal128(-1)` prints "-1" and no special predicate holds |
| Decimal128.DefaultText | src/MongoDB.Bson.Tests/ObjectModel/Decimal128Tests.cs:17-23 | the default struct prints "0" and no special predicate holds |
| Significand.DivStep | src/MongoDB.Bson/ObjectModel/Decimal128.cs:305-308 | one step of the long division: carry·2^32 + word = quotient·10^9 + new carry, with the new carry below 10^9 |
| Significand.DivideByOneBillion | src/MongoDB.Bson/ObjectModel/Decimal128.cs:293-326 | old value = quotient·10^9 + remainder with remainder below 10^9; every quotient word fits in 32 bits; zero input returns itself and remainder 0 |
| Significand.DivideByOneBillionExact | src/MongoDB.Bson/ObjectModel/Decimal128.cs:293-326 | the quotient is the value divided by 10^9 and the remainder is the value modulo 10^9 |
| Significand.WriteGroupValue | src/MongoDB.Bson/ObjectModel/Decimal128.cs:203-207 | writing a remainder into an all-zero group k adds remainder·10^(9·(3−k)) to the value the 36 slots spell |
| Significand.Collect | src/MongoDB.Bson/ObjectModel/Decimal128.cs:192-208 | no contract beyond 36 digit slots; its meaning is given by `CollectValue` |
| Significand.CollectValue | src/MongoDB.Bson/ObjectModel/Decimal128.cs:192-208 | the outer loop as written leaves in the slots the low groups of the significand up to its first zero group |
| Significand.KeptIsValue | src/MongoDB.Bson/ObjectModel/Decimal128.cs:198-201 | the kept groups equal the whole significand if and only if no group below the leading one is zero |
| Significand.KeptZero | src/MongoDB.Bson/ObjectModel/Decimal128.cs:198-201 | nothing is kept if and only if the significand is a multiple of 10^9 |
| Significand.FirstNonzero | src/MongoDB.Bson/ObjectModel/Decimal128.cs:219-226 | the skipping loop stops at the first nonzero slot; if every slot from its start is zero it reads one past the end and throws `IndexOutOfRangeException` |
| Significand.Significant | src/MongoDB.Bson/ObjectModel/Decimal128.cs:180-226 | at least one digit on success and `IndexOutOfRangeException` on failure; the rest of its meaning is given by `SignificantSpec` |
| Significand.SignificantSpec | src/MongoDB.Bson/ObjectModel/Decimal128.cs:180-226 | digit extraction yields `[0]` for zero, throws for a nonzero multiple of 10^9, and otherwise yields the shortest spelling of the kept groups |
| Significand.SlotsCanonical | src/MongoDB.Bson/ObjectModel/Decimal128.cs:211-226 | skipping the leading zero slots of any slots that spell a nonzero value leaves that value's shortest spelling |
| Significand.SpellsSignificand | src/MongoDB.Bson/ObjectModel/Decimal128.cs:180-226 | for significands below 10^36, the extracted digits spell the significand if and only if no group below the leading one is zero |
| Significand.OneBillionThrows | src/MongoDB.Bson/ObjectModel/Decimal128.cs:219-226 | the significand 10^9 makes extraction read past slot 35 |
| Significand.MiddleZeroGroupDropsDigits | src/MongoDB.Bson/ObjectModel/Decimal128.cs:198-201 | the significand 10^18 + 1 yields the single digit 1 |
| Significand.ExtractDigits | src/MongoDB.Bson/ObjectModel/Decimal128.cs:180-226 | the array code (zero test, group loop, skip loop) computes exactly the functional extraction |
| Significand.FillGroups | src/MongoDB.Bson/ObjectModel/Decimal128.cs:192-208 | the outer loop over a fresh zero array leaves it holding the functional loop's slots |
| Significand.WriteRemainder | src/MongoDB.Bson/ObjectModel/Decimal128.cs:203-207 | the inner loop writes the remainder's nine digits into group k, most significant first, and touches nothing else |
| Significand.SkipZeros | src/MongoDB.Bson/ObjectModel/Decimal128.cs:211-226 | the skip loop over the array returns the first nonzero slot, or the out-of-range error |
| Notation.ScientificIff | src/MongoDB.Bson/ObjectModel/Decimal128.cs:228-233 | 'E' occurs in the text if and only if sciExp ≥ 12, sciExp ≤ −4, exponent > 0, or the value is zero with sciExp ≠ 0 |
| Notation.ScientificLayout | src/MongoDB.Bson/ObjectModel/Decimal128.cs:234-250 | scientific text starts with the first digit and holds exactly one 'E'; before it stand the first digit, the separator exactly when more digits follow, and the other digits; after it stands exactly the decimal text of sciExp = exponent + digit count − 1, which is never 0 in this notation, so it has no '+' and no leading zero, and it parses back to sciExp |
| Notation.PlainFractionLayout | src/MongoDB.Bson/ObjectModel/Decimal128.cs:260-287 | plain text with a negative exponent holds one '.' followed by exactly −exponent digits; before the '.' stand the first radixPosition digits when radixPosition > 0, and a single "0" otherwise |
| Notation.ZeroText | src/MongoDB.Bson/ObjectModel/BsonDecimal.cs:99-146 | the zero significand prints "0" at exponent 0 and "0E<exponent>" otherwise |
| Notation.RenderLead | src/MongoDB.Bson/ObjectModel/Decimal128.cs:228-288 | every rendering is non-empty and starts with a digit |
| Notation.RenderScientificDenotes | src/MongoDB.Bson/ObjectModel/Decimal128.cs:234-250 | scientific text reads back as the digits' value at the exponent |
| Notation.RenderIntegerDenotes | src/MongoDB.Bson/ObjectModel/Decimal128.cs:253-259 | plain text at a non-negative exponent is the bare digits and reads back as the digits' value at the exponent |
| Notation.PlainIntegerLayout | src/MongoDB.Bson/ObjectModel/Decimal128.cs:253-259 | plain notation at a non-negative exponent happens only at exponent 0, and its text, whatever the separator, is exactly the digits with no separator, sign or exponent mark |
| Notation.RenderFractionDenotes | src/MongoDB.Bson/ObjectModel/Decimal128.cs:262-286 | plain text with whole digits before the separator reads back as the digits' value at the exponent |
| Notation.RenderPaddedDenotes | src/MongoDB.Bson/ObjectModel/Decimal128.cs:262-286 | plain text with "0." and padding zeros reads back as the digits' value at the exponent |
| Notation.Render | src/MongoDB.Bson/ObjectModel/Decimal128.cs:228-288 | no contract; its meaning is given by `RenderDenotes`, `ScientificIff`, `ScientificLayout`, `PlainIntegerLayout` and `PlainFractionLayout` |
| Notation.RenderDenotes | src/MongoDB.Bson/ObjectModel/Decimal128.cs:228-288 | in every notation the text reads back as the digits' value at the exponent |
| Notation.FormatDigits | src/MongoDB.Bson/ObjectModel/Decimal128.cs:228-288 | the `StringBuilder` code produces exactly the rendering |
| Notation.FormatScientific | src/MongoDB.Bson/ObjectModel/Decimal128.cs:234-250 | the scientific branch's appends produce exactly the scientific rendering |
| Notation.FormatFraction | src/MongoDB.Bson/ObjectModel/Decimal128.cs:260-287 | the negative-exponent branch's appends produce exactly the plain rendering |
| Notation.AppendHead | src/MongoDB.Bson/ObjectModel/Decimal128.cs:264-274 | the whole part is the first radixPosition digits, or "0" when radixPosition ≤ 0 |
| Notation.AppendPadding | src/MongoDB.Bson/ObjectModel/Decimal128.cs:278-281 | the padding loop appends −radixPosition zeros when that is positive and leaves radixPosition at max(radixPosition, 0) + 1 |
| Notation.AppendDigits | src/MongoDB.Bson/ObjectModel/Decimal128.cs:283-286 | the copying loop appends the next `count` digits and advances the read index by `count` |
| DecimalText.IntToStringRoundTrip | src/MongoDB.Bson/ObjectModel/Decimal128.cs:249 | the exponent text parses back to the exponent and contains no 'E' and no '.' |
| BsonDecimal.New | src/MongoDB.Bson/ObjectModel/BsonDecimal.cs:18-30 | null and lengths other than 4 are rejected with the same exceptions as `Decimal128`; otherwise the words are held unchanged |
| BsonDecimal.ToString | src/MongoDB.Bson/ObjectModel/BsonDecimal.cs:50-204 | no contract; its meaning is given by `ToStringAgrees` |
| BsonDecimal.ToStringAgrees | src/MongoDB.Bson/ObjectModel/BsonDecimal.cs:50-204 | for every four words, `BsonDecimal.ToString` equals `Decimal128.ToString` of the decoded struct, the hard-coded '.' being the invariant separator |
| CorrectedDigits.CollectAll | src/MongoDB.Bson/ObjectModel/Decimal128.cs:192-208 | no contract beyond 36 digit slots; its meaning is given by `CollectAllValue` |
| CorrectedDigits.CollectAllValue | src/MongoDB.Bson/ObjectModel/Decimal128.cs:192-208 | the outer loop that skips zero groups leaves in the slots the low k+1 groups of the significand |
| CorrectedDigits.SignificantAllSpec | src/MongoDB.Bson/ObjectModel/Decimal128.cs:180-226 | with zero groups skipped, extraction yields the shortest spelling of every significand below 10^36 |
| CorrectedDigits.BreakAgreesIff | src/MongoDB.Bson/ObjectModel/Decimal128.cs:198-201 | ending the loop and skipping the group extract the same digits if and only if no group below the leading one is zero |
| CorrectedDigits.MiddleZeroGroupKept | src/MongoDB.Bson/ObjectModel/Decimal128.cs:198-201 | with skipping, 10^18 + 1 yields all 19 of its digits |
| CorrectedDigits.ToStringCorrected | src/MongoDB.Bson/ObjectModel/Decimal128.cs:150-291 | no contract; its meaning is given by `CorrectedTextDenotes` and `CorrectedAgreesIff` |
| CorrectedDigits.CorrectedTextDenotes | src/MongoDB.Bson/ObjectModel/Decimal128.cs:180-288 | the corrected formatter succeeds on every finite value; its text reads back as exactly the decoded significand and exponent; 'E' appears if and only if the notation rule says so |
| CorrectedDigits.CorrectedAgreesIff | src/MongoDB.Bson/ObjectModel/Decimal128.cs:198-201 | the formatter as written and the corrected one agree on a finite value if and only if no group below its leading one is zero |
| Vectors.SpecialVectors | src/MongoDB.Bson.Tests/ObjectModel/Decimal128Tests.cs:119-126 | the infinity and NaN vectors print "Infinity", "-Infinity" and "NaN" |
| Vectors.OneVector | src/MongoDB.Bson.Tests/ObjectModel/Decimal128Tests.cs:127 | `30400000 0 0 1` prints "1" |
| Vectors.ZeroVector | src/MongoDB.Bson.Tests/ObjectModel/Decimal128Tests.cs:128 | `30400000 0 0 0` prints "0" |
| Vectors.TwoVector | src/MongoDB.Bson.Tests/ObjectModel/Decimal128Tests.cs:129 | `30400000 0 0 2` prints "2" |
| Vectors.MinusOneVector | src/MongoDB.Bson.Tests/ObjectModel/Decimal128Tests.cs:130 | `B0400000 0 0 1` prints "-1" |
| Vectors.MinusZeroVector | src/MongoDB.Bson.Tests/ObjectModel/Decimal128Tests.cs:131 | `B0400000 0 0 0` prints "-0" |
| Vectors.TenthVector | src/MongoDB.Bson.Tests/ObjectModel/Decimal128Tests.cs:132 | `303E0000 0 0 1` prints "0.1" |
| Vectors.SmallFractionVector | src/MongoDB.Bson.Tests/ObjectModel/Decimal128Tests.cs:133 | `30340000 0 0 4D2` prints "0.001234" |
| Vectors.TwelveDigitVector | src/MongoDB.Bson.Tests/ObjectModel/Decimal128Tests.cs:134 | `30400000 0 1C BE991A14` prints "123456789012" |
| Vectors.TrailingZerosVector | src/MongoDB.Bson.Tests/ObjectModel/Decimal128Tests.cs:135 | `302A0000 0 0 75AEF40` prints "0.00123400000" |
| Vectors.ThirtyFourDigitVector | src/MongoDB.Bson.Tests/ObjectModel/Decimal128Tests.cs:136 | the 34-digit vector prints "0.1234567890123456789012345678901234" |
| Vectors.BsonSpecialVectors | src/MongoDB.Bson.Tests/ObjectModel/BsonDecimalTests.cs:17-23 | `BsonDecimal` prints the infinity and NaN vectors as "Infinity", "-Infinity" and "NaN" |
| Vectors.BsonOneVector | src/MongoDB.Bson.Tests/ObjectModel/BsonDecimalTests.cs:24 | `BsonDecimal` prints `30400000 0 0 1` as "1" |
| Vectors.BsonZeroVector | src/MongoDB.Bson.Tests/ObjectModel/BsonDecimalTests.cs:25 | `BsonDecimal` prints `30400000 0 0 0` as "0" |
| Vectors.BsonTwoVector | src/MongoDB.Bson.Tests/ObjectModel/BsonDecimalTests.cs:26 | `BsonDecimal` prints `30400000 0 0 2` as "2" |
| Vectors.BsonMinusOneVector | src/MongoDB.Bson.Tests/ObjectModel/BsonDecimalTests.cs:27 | `BsonDecimal` prints `B0400000 0 0 1` as "-1" |
| Vectors.BsonMinusZeroVector | src/MongoDB.Bson.Tests/ObjectModel/BsonDecimalTests.cs:28 | `BsonDecimal` prints `B0400000 0 0 0` as "-0" |
| Vectors.MiddleZeroGroupVector | src/MongoDB.Bson/ObjectModel/Decimal128.cs:198-201 | `302E0000 0 0DE0B6B3 A7640001` (10^18 + 1 at exponent −9) prints "1E-9" as written and "1000000000.000000001" when corrected |

## Left out

- Culture handling: `NumberFormatInfo` is reduced to its decimal separator. `Decimal128.ToStringWith` takes the separator as a parameter, and `ToString` fixes it to the invariant ".". `StringBuilder.Append(int)` is modelled as plain ASCII decimal text with a leading '-'.
- `BsonDecimal.CompareTo`, `Equals` and `GetHashCode` only throw `NotImplementedException`. `BsonType` and the `BsonValue` base class are not part of this model.
- src/MongoDB.Driver.Core/MongoServerException.cs is not part of this model: it holds exception plumbing with no logic.
- `BsonDecimal.DivideByOneBillion` is textually the same as the one in `Decimal128`. Both are modelled by `Significand.DivideByOneBillion`.
- `BsonDecimal.ToString` repeats the field extraction of the `Decimal128` constructor, the digit loop and the rendering. Each is defined once (`Decimal128.ExponentFieldOf`, `Decimal128.HighFieldOf`, `Significand.Significant`, `Notation.Render`) and used by both classes. `BsonDecimal.ToString` keeps its own sign and special-value tests on the raw first word, and `BsonDecimal.ToStringAgrees` ties it to `Decimal128.ToString`.
- In `GetParts`, `significandMsb` is computed and never used, so the model leaves it out.
- Arrays are sequences and a null reference is `None`. `BsonDecimal`'s defensive copy of the caller's array needs no model, because a sequence value cannot be changed afterwards.
- The `ulong` remainder in the long division never exceeds 10^9·2^32, so unbounded integers model it exactly. The C# `-value` on `int.MinValue` wraps, and `Decimal128.NegateInt32` writes that out.
- The signaling-NaN "S" prefix is left as a TODO in the source, so SNaN prints "NaN" as written. Significands of 10^34 and above are not rejected; they are formatted like any other.
- The `[Serializable]` attribute has no behaviour to model.

## Findings

| source | as written | input that shows it | evidently intended | confidence | as-written member | corrected member |
|---|---|---|---|---|---|---|
| src/MongoDB.Bson/ObjectModel/Decimal128.cs:137 | `GetParts` ORs the whole decoded high word into the first word. In the extended form that word includes the implicit 2^17. Bit 17 is bit 2 of the extended exponent field (bits 28..15), so the OR adds 4 to the biased exponent. | `78000000 0 0 0` (`PositiveInfinity`) re-encodes as `78020000 0 0 0` | ORing only the stored bits 14..0 of the high word in the extended form, so that `GetParts` inverts the constructor, as Decimal128Tests.cs:27-37 expects for every vector | high; not executed | Decimal128.PositiveInfinityParts | Decimal128.GetPartsMaskedRoundTrip |
| src/MongoDB.Bson/ObjectModel/Decimal128.cs:198-201 | The digit loop ends at the first zero base-10^9 remainder and drops every more significant group (BsonDecimal.cs:111-114 is the same). | `302E0000 0 0DE0B6B3 A7640001` (10^18 + 1 at exponent −9) prints "1E-9" | skipping the zero group, whose slots are already zero, and going on with the next division; the same input then prints "1000000000.000000001" | high; not executed | Vectors.MiddleZeroGroupVector | CorrectedDigits.CorrectedTextDenotes |

A nonzero significand that is a multiple of 10^9 is the same loop's second symptom. Because the loop ends before writing any digit, the skip loop runs past slot 35 and `ToString` throws `IndexOutOfRangeException` (`Decimal128.OneBillionIntThrows`). The corrected loop prints such values too, as `CorrectedDigits.CorrectedTextDenotes` states for every finite value.
