/**
 The `Decimal128` struct: a decimal128 value as the driver keeps it after
 decoding the four 32-bit words of the IEEE 754-2008 binary integer
 decimal (BID) encoding.

 The first word holds the sign, the five-bit combination field, the
 14-bit biased exponent and the top bits of the significand, a number
 below 2^114. When
 the two high combination bits are both set the exponent sits two bits
 lower and the significand's top bits are the implicit `100` followed by
 one stored bit (the "extended" form); combinations `11110` and `11111`
 mark infinities and NaNs.
 */
module Decimal128 {
  import opened Wrappers
  import opened Errors
  import opened DecimalText
  import opened Significand
  import opened Notation

  /** A C# `int`. */
  type Int32 = i: int | -0x8000_0000 <= i < 0x8000_0000

  /** A `uint[]` of length four, most significant word first. */
  type Parts = p: seq<bv32> | |p| == 4 witness [0, 0, 0, 0]

  const ExponentBias: int := 6176

  /** The separator of `NumberFormatInfo.InvariantInfo`. */
  const InvariantSeparator: string := "."

  datatype Decimal128 = Decimal128(
    flags: bv8,
    exponent: Int32,
    high: Word,
    highMid: Word,
    lowMid: Word,
    low: Word)
  {
    predicate IsNegative() {
      flags & 0x80 != 0
    }

    predicate IsNegativeInfinity() {
      flags & 0xF8 == 0xF8
    }

    predicate IsPositiveInfinity() {
      flags & 0x78 == 0x78 && flags & 0x80 == 0 && flags & 0x7C != 0x7C
    }

    predicate IsQNaN() {
      flags & 0x7C == 0x7C && flags & 0x7E != 0x7E
    }

    predicate IsSNaN() {
      flags & 0x7E == 0x7E
    }

    predicate IsNaN() {
      IsQNaN() || IsSNaN()
    }

    predicate IsInfinity() {
      IsPositiveInfinity() || IsNegativeInfinity()
    }

    /** The five combination bits: bits 2 to 6 of the flags byte. */
    function Combination(): bv8 {
      (flags >> 2) & 0x1F
    }

    /** Both high combination bits set: the extended form, an infinity or a NaN. */
    predicate IsExtended() {
      Combination() >> 3 == 3
    }

    function Significand(): Sig {
      Sig(high, highMid, lowMid, low)
    }

    /** The combinations `ToString` prints as `Infinity` or `NaN` rather than as digits. */
    predicate IsSpecial() {
      Combination() == 0x1E || Combination() == 0x1F
    }
  }

  /** `default(Decimal128)`: every field zero. */
  const Default: Decimal128 := Decimal128(0, 0, 0, 0, 0, 0)

  // ---------------------------------------------------------------------
  // Construction
  // ---------------------------------------------------------------------

  /**
   Is `w0` in the extended form? This is the test on the word itself that
   `BsonDecimal.ToString` makes; the constructor makes it on the flags
   byte (`ExtendedFlags`), and `FlagsExtended` shows the two agree.
   */
  predicate ExtendedWord(w0: bv32) {
    ((w0 >> 26) & 0x1F) >> 3 == 3
  }

  /** The constructor's test: both high bits of the combination `(flags >> 2) & 0x1F` set. */
  predicate ExtendedFlags(flags: bv8) {
    ((flags >> 2) & 0x1F) >> 3 == 3
  }

  /** A `uint` read as a number. */
  function WordOf(x: bv32): Word {
    x as int
  }

  /** `x & 0x3FFF`, the 14-bit exponent field, as a number. */
  function Field14(x: bv32): (r: nat)
    ensures r < 0x4000
  {
    (x & 0x3FFF) as int
  }

  /** The biased exponent field of the first word: at bit 15 in the extended form, else at bit 17. */
  function ExponentFieldOf(w0: bv32, extended: bool): nat {
    if extended then Field14(w0 >> 15) else Field14(w0 >> 17)
  }

  /** The significand bits of the first word, with the implicit `100` of the extended form. */
  function HighFieldOf(w0: bv32, extended: bool): bv32 {
    var significandMsb: bv32 := if extended then 8 + ((w0 >> 14) & 1) else (w0 >> 14) & 7;
    (w0 & 0x3FFF) + ((significandMsb & 0xF) << 14)
  }

  /** The exponent field, the form being read off the word. */
  function BiasedExponentField(w0: bv32): nat {
    ExponentFieldOf(w0, ExtendedWord(w0))
  }

  /** The high significand word, the form being read off the word. */
  function HighField(w0: bv32): bv32 {
    HighFieldOf(w0, ExtendedWord(w0))
  }

  /**
   The field extraction of the `uint[]` constructor once the argument
   checks have passed: the flags byte first, the form from its combination.
   */
  function Decode(p: Parts): Decimal128 {
    var w0 := p[0];
    var flags := (w0 >> 24) as bv8;
    var extended := ExtendedFlags(flags);
    Decimal128(flags, ExponentFieldOf(w0, extended) - ExponentBias,
      WordOf(HighFieldOf(w0, extended)), WordOf(p[1]), WordOf(p[2]), WordOf(p[3]))
  }

  /**
   `new Decimal128(uint[] parts)`; `None` stands for a null reference.
   */
  function New(parts: Option<seq<bv32>>): (r: Result<Decimal128, Exception>)
    ensures r == Failure(ArgumentNull("parts")) <==> parts.None?
    ensures r == Failure(Argument("Must be of length 4.", "parts")) <==> parts.Some? && |parts.value| != 4
    ensures r.Success? <==> parts.Some? && |parts.value| == 4
    ensures r.Success? ==> r.value == Decode(parts.value)
  {
    match parts
    case None => Failure(ArgumentNull("parts"))
    case Some(p) =>
      if |p| != 4 then Failure(Argument("Must be of length 4.", "parts"))
      else Success(Decode(p))
  }

  /** Unchecked `int` negation: `-int.MinValue` wraps to itself. */
  function NegateInt32(value: Int32): Int32 {
    if value == -0x8000_0000 then value else -value
  }

  /** `new Decimal128(int value)`. */
  function FromInt(value: Int32): (d: Decimal128)
    ensures d.flags == if value < 0 then 0x80 else 0
    ensures !d.IsSpecial() && !d.IsNaN() && !d.IsInfinity()
    ensures d.IsNegative() <==> value < 0
    ensures d.exponent == 0 && d.Significand().Value() == if value < 0 then -(value as int) else value
  {
    var flags: bv8 := if value < 0 then 0x80 else 0;
    var magnitude := if value < 0 then NegateInt32(value) else value;
    // the magnitude's bits, reinterpreted as an unsigned word
    Decimal128(flags, 0, 0, 0, 0, magnitude % TwoTo32)
  }

  const NegativeInfinity: Decimal128 := Decode([0xF800_0000, 0, 0, 0])
  const PositiveInfinity: Decimal128 := Decode([0x7800_0000, 0, 0, 0])
  const QNaN: Decimal128 := Decode([0x7C00_0000, 0, 0, 0])
  const SNaN: Decimal128 := Decode([0x7E00_0000, 0, 0, 0])

  // ---------------------------------------------------------------------
  // Encoding
  // ---------------------------------------------------------------------

  /** `(uint)(exponent + 6176)`: the `int` sum wraps and the cast reinterprets its bits. */
  function BiasedExponent(exponent: Int32): bv32 {
    ((exponent + ExponentBias) % TwoTo32) as bv32
  }

  /**
   `GetParts`: the flags byte, the biased exponent at bit 15 or 17
   according to the combination, and the high significand word, OR-ed
   into the first word.
   */
  function GetParts(d: Decimal128): Parts {
    [FirstWord(d.flags, BiasedExponent(d.exponent), d.IsExtended(), d.high as bv32),
     d.highMid as bv32, d.lowMid as bv32, d.low as bv32]
  }

  /**
   `GetParts` as the constructor's layout requires it: in the extended form
   only bits 14..0 of the high word go into the first word, the implicit
   leading `100` being implied by the combination bits.
   */
  function GetPartsMasked(d: Decimal128): Parts {
    var high := if d.IsExtended() then (d.high as bv32) & 0x7FFF else d.high as bv32;
    [FirstWord(d.flags, BiasedExponent(d.exponent), d.IsExtended(), high),
     d.highMid as bv32, d.lowMid as bv32, d.low as bv32]
  }

  /** The first word of `GetParts`: flags, biased exponent and high significand bits OR-ed together. */
  function FirstWord(flags: bv8, biased: bv32, extended: bool, high: bv32): bv32 {
    var p0 := (flags as bv32) << 24;
    var p0' := if extended then p0 | (biased << 15) else p0 | (biased << 17);
    p0' | high
  }

  // ---------------------------------------------------------------------
  // Text
  // ---------------------------------------------------------------------

  /**
   `ToString(NumberFormatInfo)` with the culture's decimal separator: an
   optional `-`, then `Infinity` or `NaN` (NaN drops the sign), or the
   digits in plain or scientific notation.
   */
  function ToStringWith(d: Decimal128, sep: string): Result<string, Exception> {
    var sign := if d.flags & 0x80 != 0 then "-" else "";
    var combination := d.Combination();
    if combination >> 3 == 3 && combination == 0x1E then Success(sign + "Infinity")
    else if combination >> 3 == 3 && combination == 0x1F then Success("NaN")
    else
      var digits :- Significant(d.Significand());
      Success(sign + Render(digits, d.exponent, sep))
  }

  /** `ToString()`: the invariant culture. */
  function ToString(d: Decimal128): Result<string, Exception> {
    ToStringWith(d, InvariantSeparator)
  }

  // ---------------------------------------------------------------------
  // Proofs: bit layout
  // ---------------------------------------------------------------------

  /** The combination the flags byte yields is the one read straight from the first word. */
  lemma DecodeCombination(p: Parts)
    ensures Decode(p).Combination() == ((p[0] >> 26) & 0x1F) as bv8
    ensures Decode(p).IsExtended() <==> ExtendedWord(p[0])
    ensures Decode(p).IsNegative() <==> p[0] >> 31 == 1
  {
  }

  /** The constructor's test on the flags byte and the test on the word give the same form. */
  lemma FlagsExtended(w0: bv32)
    ensures ExtendedFlags((w0 >> 24) as bv8) <==> ExtendedWord(w0)
  {
  }

  /** Hence the decoded fields are the ones read off the word with the word's own test. */
  lemma DecodeFields(p: Parts)
    ensures Decode(p) == Decimal128((p[0] >> 24) as bv8, BiasedExponentField(p[0]) - ExponentBias,
      WordOf(HighField(p[0])), WordOf(p[1]), WordOf(p[2]), WordOf(p[3]))
  {
    FlagsExtended(p[0]);
  }

  /** Reading a word as a number and casting it back is the identity. */
  lemma WordBits(x: bv32)
    ensures (x as int) as bv32 == x
  {
  }

  lemma Field14Bits(x: bv32)
    ensures (Field14(x) as int) as bv32 == x & 0x3FFF
  {
    WordBits(x & 0x3FFF);
  }

  /** Re-biasing the decoded exponent gives back the stored field. */
  lemma BiasedExponentRoundTrip(w0: bv32)
    ensures BiasedExponent(BiasedExponentField(w0) - ExponentBias)
      == if ExtendedWord(w0) then (w0 >> 15) & 0x3FFF else (w0 >> 17) & 0x3FFF
  {
    var x := if ExtendedWord(w0) then w0 >> 15 else w0 >> 17;
    Field14Bits(x);
  }

  /**
   `GetParts` inverts the constructor on the normal form; on the extended
   form (which includes the infinities and NaNs) it writes the exponent at
   bit 15 but keeps the decoded implicit `100` in the high word, so bit 17
   comes back set.
   */
  lemma GetPartsRoundTrip(p: Parts)
    ensures !ExtendedWord(p[0]) ==> GetParts(Decode(p)) == p
    ensures ExtendedWord(p[0]) ==> GetParts(Decode(p)) == [p[0] | 0x2_0000, p[1], p[2], p[3]]
  {
    var q := GetParts(Decode(p));
    assert q[0] == if ExtendedWord(p[0]) then p[0] | 0x2_0000 else p[0] by {
      FirstWordRoundTrip(p);
    }
    assert q[1..] == p[1..] by {
      LowWordsOf(Decode(p), p);
    }
    assert q == [q[0]] + q[1..];
    assert p == [p[0]] + p[1..];
  }

  /** The three low words pass through the constructor and `GetParts` unchanged. */
  lemma LowWordsOf(d: Decimal128, p: Parts)
    requires d.highMid == WordOf(p[1]) && d.lowMid == WordOf(p[2]) && d.low == WordOf(p[3])
    ensures GetParts(d)[1..] == p[1..]
  {
    WordBits(p[1]);
    WordBits(p[2]);
    WordBits(p[3]);
  }

  lemma FirstWordRoundTrip(p: Parts)
    ensures GetParts(Decode(p))[0] == if ExtendedWord(p[0]) then p[0] | 0x2_0000 else p[0]
  {
    var d := Decode(p);
    assert d.flags == (p[0] >> 24) as bv8 && d.exponent == BiasedExponentField(p[0]) - ExponentBias
      && d.high == WordOf(HighField(p[0])) by {
      DecodeFields(p);
    }
    FirstWordOf(d, p[0]);
  }

  /** `GetParts` re-assembles the first word from fields decoded out of `w0`. */
  lemma FirstWordOf(d: Decimal128, w0: bv32)
    requires d.flags == (w0 >> 24) as bv8
    requires d.exponent == BiasedExponentField(w0) - ExponentBias && d.high == WordOf(HighField(w0))
    ensures GetParts(d)[0] == if ExtendedWord(w0) then w0 | 0x2_0000 else w0
  {
    FlagsExtended(w0);
    BiasedExponentRoundTrip(w0);
    WordBits(HighField(w0));
    FirstWordBits(w0);
  }

  /** The bit identity behind the round trip of the first word. */
  lemma FirstWordBits(w0: bv32)
    ensures FirstWord((w0 >> 24) as bv8,
                      if ExtendedWord(w0) then (w0 >> 15) & 0x3FFF else (w0 >> 17) & 0x3FFF,
                      ExtendedWord(w0), HighField(w0))
         == if ExtendedWord(w0) then w0 | 0x2_0000 else w0
  {
    if ExtendedWord(w0) {
      ExtendedWordBits(w0);
    } else {
      NormalWordBits(w0);
    }
  }

  lemma NormalWordBits(w0: bv32)
    requires !ExtendedWord(w0)
    ensures FirstWord((w0 >> 24) as bv8, (w0 >> 17) & 0x3FFF, false, HighField(w0)) == w0
  {
  }

  lemma ExtendedWordBits(w0: bv32)
    requires ExtendedWord(w0)
    ensures FirstWord((w0 >> 24) as bv8, (w0 >> 15) & 0x3FFF, true, HighField(w0)) == w0 | 0x2_0000
  {
  }

  /** With the high word masked, encoding inverts the constructor on every four words. */
  lemma GetPartsMaskedRoundTrip(p: Parts)
    ensures GetPartsMasked(Decode(p)) == p
  {
    var d := Decode(p);
    assert GetPartsMasked(d)[0] == p[0] by {
      MaskedFirstWordRoundTrip(p);
    }
    assert GetPartsMasked(d)[1..] == p[1..] by {
      LowWordsOf(d, p);
      assert GetPartsMasked(d)[1..] == GetParts(d)[1..];
    }
    SameWords(GetPartsMasked(d), p);
  }

  /** Four words agree when the first and the rest do. */
  lemma SameWords(a: Parts, b: Parts)
    requires a[0] == b[0] && a[1..] == b[1..]
    ensures a == b
  {
    assert a == [a[0]] + a[1..];
    assert b == [b[0]] + b[1..];
  }

  lemma MaskedFirstWordRoundTrip(p: Parts)
    ensures GetPartsMasked(Decode(p))[0] == p[0]
  {
    var d := Decode(p);
    assert d.flags == (p[0] >> 24) as bv8 && d.exponent == BiasedExponentField(p[0]) - ExponentBias
      && d.high == WordOf(HighField(p[0])) by {
      DecodeFields(p);
    }
    MaskedFirstWordOf(d, p[0]);
  }

  lemma MaskedFirstWordOf(d: Decimal128, w0: bv32)
    requires d.flags == (w0 >> 24) as bv8
    requires d.exponent == BiasedExponentField(w0) - ExponentBias && d.high == WordOf(HighField(w0))
    ensures GetPartsMasked(d)[0] == w0
  {
    FlagsExtended(w0);
    BiasedExponentRoundTrip(w0);
    WordBits(HighField(w0));
    if ExtendedWord(w0) {
      MaskedExtendedWordBits(w0);
    } else {
      NormalWordBits(w0);
    }
  }

  lemma MaskedExtendedWordBits(w0: bv32)
    requires ExtendedWord(w0)
    ensures FirstWord((w0 >> 24) as bv8, (w0 >> 15) & 0x3FFF, true, HighField(w0) & 0x7FFF) == w0
  {
  }

  /** The round trip is exact precisely when the words are in the normal form or bit 17 is already set. */
  lemma GetPartsExactIff(p: Parts)
    ensures GetParts(Decode(p)) == p <==> !ExtendedWord(p[0]) || p[0] & 0x2_0000 != 0
  {
    GetPartsRoundTrip(p);
    if ExtendedWord(p[0]) && p[0] & 0x2_0000 == 0 {
      assert GetParts(Decode(p))[0] != p[0];
    }
  }

  // ---------------------------------------------------------------------
  // Proofs: the decoded fields
  // ---------------------------------------------------------------------

  /**
   The constructor's layout: in the normal form the exponent is bits 30..17
   and the high word bits 16..0; in the extended form the exponent is bits
   28..15 and the high word is bits 14..0 under the implicit leading `100`
   (that is, bits 13..0 plus `8 + bit 14` times 2^14).
   */
  lemma DecodeLayout(p: Parts)
    ensures !ExtendedWord(p[0]) ==>
      Decode(p).exponent == ((p[0] >> 17) & 0x3FFF) as int - ExponentBias
      && Decode(p).high == (p[0] & 0x1_FFFF) as int
    ensures ExtendedWord(p[0]) ==>
      Decode(p).exponent == ((p[0] >> 15) & 0x3FFF) as int - ExponentBias
      && Decode(p).high == (p[0] & 0x7FFF) as int + 0x2_0000
    ensures Decode(p).highMid == p[1] as int && Decode(p).lowMid == p[2] as int && Decode(p).low == p[3] as int
  {
    if ExtendedWord(p[0]) {
      ExtendedLayout(p);
    } else {
      NormalLayout(p);
    }
  }

  lemma NormalLayout(p: Parts)
    requires !ExtendedWord(p[0])
    ensures Decode(p).exponent == ((p[0] >> 17) & 0x3FFF) as int - ExponentBias
    ensures Decode(p).high == (p[0] & 0x1_FFFF) as int
  {
    assert Decode(p).high == HighField(p[0]) as int;
    NormalHighBits(p[0]);
  }

  lemma ExtendedLayout(p: Parts)
    requires ExtendedWord(p[0])
    ensures Decode(p).exponent == ((p[0] >> 15) & 0x3FFF) as int - ExponentBias
    ensures Decode(p).high == (p[0] & 0x7FFF) as int + 0x2_0000
  {
    assert Decode(p).high == HighField(p[0]) as int;
    ExtendedHigh(p[0]);
  }

  lemma ExtendedHigh(w0: bv32)
    requires ExtendedWord(w0)
    ensures HighField(w0) as int == (w0 & 0x7FFF) as int + 0x2_0000
  {
    assert HighField(w0) == (w0 & 0x7FFF) | 0x2_0000 by {
      ExtendedHighBits(w0);
    }
    OrBit17(w0 & 0x7FFF);
  }

  lemma ExtendedHighBits(w0: bv32)
    requires ExtendedWord(w0)
    ensures HighField(w0) == (w0 & 0x7FFF) | 0x2_0000
  {
  }

  lemma NormalHighBits(w0: bv32)
    requires !ExtendedWord(w0)
    ensures HighField(w0) == w0 & 0x1_FFFF
  {
  }

  lemma OrBit17(x: bv32)
    requires x < 0x8000
    ensures (x | 0x2_0000) as int == x as int + 0x2_0000
  {
    assert x | 0x2_0000 == x + 0x2_0000;
  }

  /** Every decoded high word is below 2^18: the 14-bit exponent field leaves no room for more. */
  lemma HighFieldBound(w0: bv32)
    ensures HighField(w0) as int < 0x4_0000
  {
    var h := HighField(w0);
    assert h < 0x4_0000;
    NarrowBound(h);
  }

  lemma NarrowBound(x: bv32)
    requires x < 0x4_0000
    ensures x as int < 0x4_0000
  {
    var y := x as bv18;
    assert y as bv32 == x;
    assert (y as bv32) as int == y as int;
  }

  lemma ShiftBound(x: nat, y: nat, c: nat)
    requires x < c && y < TwoTo32
    ensures x * TwoTo32 + y < c * TwoTo32
  {
    MulMono(TwoTo32, x, c - 1);
  }


  /**
   A decoded significand is below 2^114, hence below 10^36: four divisions
   by 10^9 and 36 digit slots always suffice. The exponent lies in
   `-6176 .. 10207`.
   */
  lemma DecodeBounds(p: Parts)
    ensures Decode(p).Significand().Value() < 0x4_0000_0000_0000_0000_0000_0000_0000
    ensures Decode(p).Significand().Value() < Pow10(36)
    ensures -ExponentBias <= Decode(p).exponent <= 0x3FFF - ExponentBias
  {
    var s := Decode(p).Significand();
    assert s.high < 0x4_0000 by {
      HighFieldBound(p[0]);
    }
    ShiftBound(s.high, s.highMid, 0x4_0000);
    ShiftBound(s.high * TwoTo32 + s.highMid, s.lowMid, 0x4_0000 * TwoTo32);
    ShiftBound((s.high * TwoTo32 + s.highMid) * TwoTo32 + s.lowMid, s.low, 0x4_0000 * TwoTo32 * TwoTo32);
    Pow10ThirtySix();
  }

  // ---------------------------------------------------------------------
  // Proofs: predicates and constants
  // ---------------------------------------------------------------------

  /**
   What the flag tests mean in terms of the sign and the combination
   field. Bit 1 of the flags byte (bit 25 of the first word) tells a
   signaling NaN from a quiet one. `IsNegativeInfinity` only tests the sign
   and the top four combination bits, so it also holds for negative NaNs.
   */
  lemma PredicateMeanings(d: Decimal128)
    ensures d.IsNaN() <==> d.Combination() == 0x1F
    ensures d.IsSNaN() <==> d.Combination() == 0x1F && d.flags & 0x02 != 0
    ensures d.IsQNaN() <==> d.Combination() == 0x1F && d.flags & 0x02 == 0
    ensures d.IsPositiveInfinity() <==> d.Combination() == 0x1E && !d.IsNegative()
    ensures d.IsNegativeInfinity() <==> d.IsNegative() && d.IsSpecial()
    ensures d.IsInfinity() <==> d.Combination() == 0x1E || (d.IsNegative() && d.Combination() == 0x1F)
  {
  }

  /** A value `ToString` prints as digits satisfies none of the special-value predicates. */
  lemma OrdinaryPredicates(d: Decimal128)
    requires !d.IsSpecial()
    ensures !d.IsNaN() && !d.IsQNaN() && !d.IsSNaN()
    ensures !d.IsInfinity() && !d.IsPositiveInfinity() && !d.IsNegativeInfinity()
  {
    PredicateMeanings(d);
  }

  lemma NegativeInfinityConstant()
    ensures NegativeInfinity.IsNegativeInfinity() && NegativeInfinity.IsInfinity()
    ensures !NegativeInfinity.IsPositiveInfinity()
    ensures !NegativeInfinity.IsNaN() && !NegativeInfinity.IsQNaN() && !NegativeInfinity.IsSNaN()
    ensures ToString(NegativeInfinity) == Success("-Infinity")
  {
    assert NegativeInfinity.flags == 0xF8;
    assert "-" + "Infinity" == "-Infinity";
  }

  lemma PositiveInfinityConstant()
    ensures PositiveInfinity.IsPositiveInfinity() && PositiveInfinity.IsInfinity()
    ensures !PositiveInfinity.IsNegativeInfinity()
    ensures !PositiveInfinity.IsNaN() && !PositiveInfinity.IsQNaN() && !PositiveInfinity.IsSNaN()
    ensures ToString(PositiveInfinity) == Success("Infinity")
  {
    assert PositiveInfinity.flags == 0x78;
    assert "" + "Infinity" == "Infinity";
  }

  lemma QNaNConstant()
    ensures QNaN.IsQNaN() && QNaN.IsNaN() && !QNaN.IsSNaN()
    ensures !QNaN.IsInfinity() && !QNaN.IsPositiveInfinity() && !QNaN.IsNegativeInfinity()
    ensures ToString(QNaN) == Success("NaN")
  {
  }

  lemma SNaNConstant()
    ensures SNaN.IsSNaN() && SNaN.IsNaN() && !SNaN.IsQNaN()
    ensures !SNaN.IsInfinity() && !SNaN.IsPositiveInfinity() && !SNaN.IsNegativeInfinity()
    ensures ToString(SNaN) == Success("NaN")
  {
  }

  /**
   `GetParts` of `PositiveInfinity` is `0x78020000, 0, 0, 0`, not the
   words it was built from: the round trip fails on the extended form.
   */
  lemma PositiveInfinityParts()
    ensures GetParts(PositiveInfinity) == [0x7802_0000, 0, 0, 0]
    ensures GetParts(PositiveInfinity) != [0x7800_0000, 0, 0, 0]
    ensures Decode(GetParts(PositiveInfinity)).exponent == PositiveInfinity.exponent + 4
  {
    GetPartsRoundTrip([0x7800_0000, 0, 0, 0]);
  }

  // ---------------------------------------------------------------------
  // Proofs: the text
  // ---------------------------------------------------------------------

  /** The sign `ToString` writes before a finite value or an infinity. */
  function SignText(d: Decimal128): string {
    if d.IsNegative() then "-" else ""
  }

  /** The text with a leading `-` removed. */
  function Unsigned(t: string): string {
    if |t| > 0 && t[0] == '-' then t[1..] else t
  }

  /**
   Unfolding step for the proofs below: a value printed as digits is the
   sign, then the rendered significant digits. `OrdinaryText` and
   `TextDenotes` state what that text is.
   */
  lemma ToStringDigits(d: Decimal128, sep: string)
    requires !d.IsSpecial() && Significant(d.Significand()).Success?
    ensures ToStringWith(d, sep)
      == Success(SignText(d) + Render(Significant(d.Significand()).value, d.exponent, sep))
  {
  }

  /**
   Unfolding step for the proofs below: when digit extraction throws,
   `ToString` throws the same. `OrdinaryText` states when that happens.
   */
  lemma ToStringThrows(d: Decimal128, sep: string)
    requires !d.IsSpecial() && Significant(d.Significand()).Failure?
    ensures ToStringWith(d, sep) == Failure(Significant(d.Significand()).error)
  {
  }

  /**
   Combination `11111` prints `NaN` whatever the sign, the signaling bit
   or the other bits; combination `11110` prints `Infinity` after the sign.
   */
  lemma SpecialText(d: Decimal128, sep: string)
    ensures d.Combination() == 0x1F ==> ToStringWith(d, sep) == Success("NaN")
    ensures d.Combination() == 0x1E ==> ToStringWith(d, sep) == Success(SignText(d) + "Infinity")
  {
  }

  /**
   Every other value prints from its significand `v` and exponent `e`: a
   zero significand as `0` (or `0E` and the exponent when `e` is not 0); a
   non-zero `v` whose lowest base-10^9 group is zero throws
   `IndexOutOfRangeException`; otherwise the digits of the part of `v` the
   digit loop keeps.
   */
  lemma OrdinaryText(d: Decimal128, sep: string)
    requires !d.IsSpecial()
    ensures var v := d.Significand().Value();
      v == 0 ==> (ToStringWith(d, sep)
        == Success(SignText(d) + if d.exponent == 0 then "0" else "0E" + IntToString(d.exponent)))
    ensures var v := d.Significand().Value();
      v != 0 && v % Billion == 0 ==> ToStringWith(d, sep) == Failure(IndexOutOfRange)
    ensures var v := d.Significand().Value();
      v % Billion != 0 ==> (ToStringWith(d, sep)
        == Success(SignText(d) + Render(Digits(Canonical(Kept(v, 4)), false), d.exponent, sep)))
  {
    var v := d.Significand().Value();
    SignificantSpec(d.Significand());
    if Significant(d.Significand()).Success? {
      ToStringDigits(d, sep);
      if v == 0 {
        ZeroText(d.exponent, sep);
      }
    } else {
      ToStringThrows(d, sep);
    }
  }

  /**
   The text of a value printed as digits starts with `-` exactly when the
   sign bit is set, and a digit follows the sign.
   */
  lemma OrdinaryTextLead(d: Decimal128, sep: string)
    requires !d.IsSpecial() && ToStringWith(d, sep).Success?
    ensures var t := ToStringWith(d, sep).value;
      |t| > |SignText(d)| && (t[0] == '-' <==> d.IsNegative()) && IsDigitChar(t[|SignText(d)|])
  {
    assert Significant(d.Significand()).Success? by {
      if Significant(d.Significand()).Failure? {
        ToStringThrows(d, sep);
      }
    }
    var ds := Significant(d.Significand()).value;
    var t := ToStringWith(d, sep).value;
    assert t == SignText(d) + Render(ds, d.exponent, sep) by {
      ToStringDigits(d, sep);
    }
    RenderLead(ds, d.exponent, sep);
    assert t[|SignText(d)|] == Render(ds, d.exponent, sep)[0];
  }

  lemma NaNTextIff(d: Decimal128, sep: string)
    ensures ToStringWith(d, sep) == Success("NaN") <==> d.IsNaN()
  {
    PredicateMeanings(d);
    SpecialText(d, sep);
    if !d.IsSpecial() && ToStringWith(d, sep).Success? {
      OrdinaryTextLead(d, sep);
    }
  }

  lemma PositiveInfinityTextIff(d: Decimal128, sep: string)
    ensures ToStringWith(d, sep) == Success("Infinity") <==> d.IsPositiveInfinity()
  {
    PredicateMeanings(d);
    SpecialText(d, sep);
    assert "-" + "Infinity" != "Infinity" && "" + "Infinity" == "Infinity";
    if !d.IsSpecial() && ToStringWith(d, sep).Success? {
      OrdinaryTextLead(d, sep);
      assert "Infinity"[0] == 'I';
    }
  }

  /** `-Infinity` is printed for exactly the negative infinities that are not NaNs. */
  lemma NegativeInfinityTextIff(d: Decimal128, sep: string)
    ensures ToStringWith(d, sep) == Success("-Infinity") <==> d.IsNegativeInfinity() && !d.IsNaN()
  {
    PredicateMeanings(d);
    SpecialText(d, sep);
    assert "-" + "Infinity" == "-Infinity" && "" + "Infinity" != "-Infinity";
    if !d.IsSpecial() && ToStringWith(d, sep).Success? {
      OrdinaryTextLead(d, sep);
      assert "-Infinity"[1] == 'I';
    }
  }

  /**
   Whenever `ToString` succeeds on a finite value, the text after the sign
   reads back as the part of the significand the digit loop keeps, at the
   value's exponent.
   */
  lemma TextDenotes(d: Decimal128)
    requires !d.IsSpecial() && ToString(d).Success?
    ensures Denotation(Unsigned(ToString(d).value))
      == Some(Denoted(Kept(d.Significand().Value(), 4), d.exponent))
  {
    var v := d.Significand().Value();
    assert Significant(d.Significand()).Success? by {
      if Significant(d.Significand()).Failure? {
        ToStringThrows(d, InvariantSeparator);
      }
    }
    var ds := Significant(d.Significand()).value;
    assert ToString(d).value == SignText(d) + Render(ds, d.exponent, ".") by {
      ToStringDigits(d, InvariantSeparator);
    }
    assert Value(ds.digits) == Kept(v, 4) by {
      SignificantSpec(d.Significand());
      if v % Billion != 0 {
        CanonicalValue(Kept(v, 4));
      }
    }
    SignedRenderDenotes(SignText(d), ds, d.exponent);
  }

  lemma SignedRenderDenotes(sign: string, ds: Digits, exponent: int)
    requires sign == "" || sign == "-"
    requires WellFormed(ds)
    ensures Denotation(Unsigned(sign + Render(ds, exponent, ".")))
      == Some(Denoted(Value(ds.digits), exponent))
    ensures 'E' in sign + Render(ds, exponent, ".") <==> UseScientific(|ds.digits|, exponent, ds.isZero)
  {
    var body := Render(ds, exponent, ".");
    assert Unsigned(sign + body) == body by {
      RenderLead(ds, exponent, ".");
      if sign == "-" {
        assert (sign + body)[1..] == body;
      }
    }
    RenderDenotes(ds, exponent);
    ScientificIff(ds, exponent, ".");
    assert 'E' in sign + body <==> 'E' in body;
  }

  /**
   When no base-10^9 group below the leading one is zero, the decoded value
   prints without error, the text after the sign reads back as exactly the
   significand and exponent, and it is in scientific notation exactly when
   the formatter's thresholds say so.
   */
  lemma DenseTextDenotes(p: Parts)
    requires !Decode(p).IsSpecial() && Dense(Decode(p).Significand().Value())
    ensures ToString(Decode(p)).Success?
    ensures Denotation(Unsigned(ToString(Decode(p)).value))
      == Some(Denoted(Decode(p).Significand().Value(), Decode(p).exponent))
    ensures var v := Decode(p).Significand().Value();
      'E' in ToString(Decode(p)).value <==> UseScientific(|Canonical(v)|, Decode(p).exponent, v == 0)
  {
    DecodeBounds(p);
    DenseValueText(Decode(p));
  }

  lemma DenseValueText(d: Decimal128)
    requires !d.IsSpecial() && d.Significand().Value() < Pow10(36) && Dense(d.Significand().Value())
    ensures ToString(d).Success?
    ensures Denotation(Unsigned(ToString(d).value)) == Some(Denoted(d.Significand().Value(), d.exponent))
    ensures var v := d.Significand().Value();
      'E' in ToString(d).value <==> UseScientific(|Canonical(v)|, d.exponent, v == 0)
  {
    var v := d.Significand().Value();
    var ds := Digits(Canonical(v), v == 0);
    assert Significant(d.Significand()) == Success(ds) by {
      SpellsSignificand(d.Significand());
    }
    assert ToString(d) == Success(SignText(d) + Render(ds, d.exponent, ".")) by {
      ToStringDigits(d, InvariantSeparator);
    }
    assert Value(ds.digits) == v by {
      CanonicalValue(v);
    }
    SignedRenderDenotes(SignText(d), ds, d.exponent);
  }

  // ---------------------------------------------------------------------
  // Proofs: the int constructor
  // ---------------------------------------------------------------------

  lemma NegatedMultiple(v: int)
    ensures (-v) % Billion == 0 <==> v % Billion == 0
  {
    if v % Billion == 0 {
      DivModUnique(-v, Billion, -(v / Billion), 0);
    }
    if (-v) % Billion == 0 {
      DivModUnique(v, Billion, -((-v) / Billion), 0);
    }
  }

  /** A magnitude of at most 2^31 has at most ten digits, so its groups are dense. */
  lemma SmallMagnitude(m: nat)
    requires m <= 0x8000_0000 && m % Billion != 0
    ensures m < Pow10(10) && Dense(m) && |Canonical(m)| <= 10
  {
    Pow10Nine();
    Pow10Add(9, 1);
    assert m / Billion < Billion;
    CanonicalLength(m, 10);
  }

  /** A finite value with exponent 0 and a significand of at most 2^31 that the loop spells in full. */
  lemma SmallIntegerText(d: Decimal128)
    requires !d.IsSpecial() && d.exponent == 0
    requires d.Significand().Value() <= 0x8000_0000 && d.Significand().Value() % Billion != 0
    ensures ToString(d) == Success(SignText(d) + NatToString(d.Significand().Value()))
  {
    var m := d.Significand().Value();
    SmallMagnitude(m);
    assert Kept(m, 4) == m by {
      Pow10ThirtySix();
      KeptIsValue(m, 4);
    }
    OrdinaryText(d, InvariantSeparator);
    assert Render(Digits(Canonical(m), false), 0, InvariantSeparator) == NatToString(m);
  }

  /**
   `new Decimal128(value).ToString()` is the ordinary decimal text of
   `value`, except for a non-zero multiple of 10^9, where the digit loop
   leaves every slot zero and the formatter throws.
   */
  lemma FromIntText(value: Int32)
    ensures value != 0 && value % Billion == 0 ==> ToString(FromInt(value)) == Failure(IndexOutOfRange)
    ensures value == 0 || value % Billion != 0 ==> ToString(FromInt(value)) == Success(IntToString(value))
  {
    var d := FromInt(value);
    var m := d.Significand().Value();
    assert m == if value < 0 then -(value as int) else value;
    assert !d.IsSpecial();
    assert m % Billion == 0 <==> value % Billion == 0 by {
      NegatedMultiple(value);
    }
    if m == 0 {
      assert ToString(d) == Success("0") by {
        OrdinaryText(d, InvariantSeparator);
        assert SignText(d) == "" && "" + "0" == "0";
      }
      assert IntToString(value) == "0" by {
        assert Canonical(0) == [0];
      }
    } else if m % Billion == 0 {
      OrdinaryText(d, InvariantSeparator);
    } else {
      SmallIntegerText(d);
      assert SignText(d) + NatToString(m) == IntToString(value);
    }
  }

  /** `new Decimal128(-1).ToString()` is `-1`, and none of the special-value predicates holds. */
  lemma MinusOneText()
    ensures ToString(FromInt(-1)) == Success("-1")
    ensures !FromInt(-1).IsNaN() && !FromInt(-1).IsInfinity()
    ensures !FromInt(-1).IsQNaN() && !FromInt(-1).IsSNaN()
    ensures !FromInt(-1).IsPositiveInfinity() && !FromInt(-1).IsNegativeInfinity()
  {
    FromIntText(-1);
    assert IntToString(-1) == "-1" by {
      assert Canonical(1) == [1];
    }
    OrdinaryPredicates(FromInt(-1));
  }

  /** `new Decimal128(1000000000).ToString()` throws `IndexOutOfRangeException`. */
  lemma OneBillionIntThrows()
    ensures ToString(FromInt(1_000_000_000)) == Failure(IndexOutOfRange)
  {
    FromIntText(1_000_000_000);
  }

  /** `default(Decimal128).ToString()` is `0`, and none of the special-value predicates holds. */
  lemma DefaultText()
    ensures ToString(Default) == Success("0")
    ensures !Default.IsNaN() && !Default.IsInfinity() && !Default.IsQNaN() && !Default.IsSNaN()
    ensures !Default.IsPositiveInfinity() && !Default.IsNegativeInfinity()
  {
    OrdinaryText(Default, InvariantSeparator);
    assert "" + "0" == "0";
    OrdinaryPredicates(Default);
  }
}
