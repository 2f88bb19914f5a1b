/**
 `BsonDecimal`: a BSON value holding the four raw words of a decimal128.

 Unlike `Decimal128` it keeps the words undecoded and takes the fields
 apart inside `ToString`; the digit loop, the division by 10^9 and the
 notation choice are the same code, with the separator fixed to `.`.
 */
module BsonDecimal {
  import opened Wrappers
  import opened Errors
  import opened DecimalText
  import opened Significand
  import opened Notation
  import Decimal128

  /** The object holds its own copy of the caller's array; as a value it cannot be changed later. */
  datatype BsonDecimal = BsonDecimal(parts: Decimal128.Parts)

  /** `new BsonDecimal(uint[] parts)`; `None` stands for a null reference. */
  function New(parts: Option<seq<bv32>>): (r: Result<BsonDecimal, Exception>)
    ensures r == Failure(ArgumentNull("parts")) <==> parts.None?
    ensures r == Failure(Argument("Must be of length 4.", "parts")) <==> parts.Some? && |parts.value| != 4
    ensures r.Success? <==> parts.Some? && |parts.value| == 4
    ensures r.Success? ==> r.value.parts == parts.value
  {
    match parts
    case None => Failure(ArgumentNull("parts"))
    case Some(p) =>
      if |p| != 4 then Failure(Argument("Must be of length 4.", "parts"))
      else Success(BsonDecimal(p))
  }

  /** `ToString()`: the sign, `Infinity`, `NaN`, or the digits with `.` as separator. */
  function ToString(b: BsonDecimal): Result<string, Exception> {
    var w0 := b.parts[0];
    var sign := if w0 >> 31 == 1 then "-" else "";
    var combination := (w0 >> 26) & 0x1F;
    if combination >> 3 == 3 && combination == 0x1E then Success(sign + "Infinity")
    else if combination >> 3 == 3 && combination == 0x1F then Success("NaN")
    else
      // the field extraction is the constructor's, done on the raw words
      var exponent := Decimal128.BiasedExponentField(w0) - Decimal128.ExponentBias;
      var s := Sig(Decimal128.WordOf(Decimal128.HighField(w0)),
        Decimal128.WordOf(b.parts[1]), Decimal128.WordOf(b.parts[2]), Decimal128.WordOf(b.parts[3]));
      var digits :- Significant(s);
      Success(sign + Render(digits, exponent, "."))
  }

  // ---------------------------------------------------------------------
  // Proofs
  // ---------------------------------------------------------------------

  /**
   The two formatters agree: `new BsonDecimal(x).ToString()` is
   `new Decimal128(x).ToString()` for every four words `x`, the hard-coded
   `.` being the invariant culture's separator.
   */
  lemma ToStringAgrees(p: Decimal128.Parts)
    ensures ToString(BsonDecimal(p)) == Decimal128.ToString(Decimal128.Decode(p))
  {
    var d := Decimal128.Decode(p);
    var c := (p[0] >> 26) & 0x1F;
    assert d.Combination() == c as bv8 && (d.IsNegative() <==> p[0] >> 31 == 1) by {
      Decimal128.DecodeCombination(p);
    }
    CombinationBits(c);
    SameFields(BsonDecimal(p), d);
  }

  /** The combination tests give the same answers on the byte and on the word. */
  lemma CombinationBits(c: bv32)
    requires c < 32
    ensures ((c as bv8) >> 3 == 3 <==> c >> 3 == 3)
    ensures ((c as bv8) == 0x1E <==> c == 0x1E) && ((c as bv8) == 0x1F <==> c == 0x1F)
  {
  }

  /** Both formatters read only the sign, the combination and the fields the constructor extracts. */
  lemma SameFields(b: BsonDecimal, d: Decimal128.Decimal128)
    requires d == Decimal128.Decode(b.parts)
    requires d.IsNegative() <==> b.parts[0] >> 31 == 1
    requires (d.Combination() >> 3 == 3) <==> ((b.parts[0] >> 26) & 0x1F) >> 3 == 3
    requires d.Combination() == 0x1E <==> (b.parts[0] >> 26) & 0x1F == 0x1E
    requires d.Combination() == 0x1F <==> (b.parts[0] >> 26) & 0x1F == 0x1F
    ensures ToString(b) == Decimal128.ToString(d)
  {
  }
}
