/**
 The text the formatter builds from the significant digits and the
 exponent.

 The coefficient is printed either in scientific notation (one digit, the
 separator, the remaining digits, `E` and the adjusted exponent) or in
 plain notation (the digits, with the separator placed `-exponent` digits
 from the right, padded on the left with zeros). The separator is the
 culture's `NumberDecimalSeparator`, a parameter here.

 As a partner of `Render` this module defines `Denotation`, a reader that
 recovers a coefficient and an exponent from such a text, and proves that
 reading back what `Render` writes yields the digits' value and the
 exponent it was given.
 */
module Notation {
  import opened Wrappers
  import opened DecimalText
  import opened Significand

  /** Digits as the formatter produces them: at least one, all below ten. */
  predicate WellFormed(d: Digits) {
    |d.digits| >= 1 && AllDigits(d.digits)
  }

  /** The adjusted exponent: the power of ten of the leading digit. */
  function ScientificExponent(digitCount: nat, exponent: int): int {
    digitCount - 1 + exponent
  }

  /** When the formatter switches to scientific notation. */
  predicate UseScientific(digitCount: nat, exponent: int, isZero: bool) {
    var sciExp := ScientificExponent(digitCount, exponent);
    sciExp >= 12 || sciExp <= -4 || exponent > 0 || (isZero && sciExp != 0)
  }

  function Max0(i: int): nat {
    if i > 0 then i else 0
  }

  /**
   The text appended after the sign. In plain notation with a negative
   exponent, `radix` digits go before the separator (or a single `0` when
   there are none), `-radix` zeros follow it when `radix` is negative, and
   the remaining digits close the text.
   */
  function Render(d: Digits, exponent: int, sep: string): string
    requires WellFormed(d)
  {
    var ds := d.digits;
    var n := |ds|;
    if UseScientific(n, exponent, d.isZero) then
      Chars(ds[..1]) + (if n - 1 != 0 then sep else "") + Chars(ds[1..])
        + "E" + IntToString(ScientificExponent(n, exponent))
    else if exponent >= 0 then
      Chars(ds)
    else
      var radix := n + exponent;
      (if radix > 0 then Chars(ds[..radix]) else "0") + sep
        + Chars(Zeros(Max0(-radix))) + Chars(ds[Max0(radix)..])
  }

  // ---------------------------------------------------------------------
  // Reading the text back
  // ---------------------------------------------------------------------

  /** The number `coefficient * 10^exponent`. */
  datatype Denoted = Denoted(coefficient: nat, exponent: int)

  /** The position of the first `c` at or after `i`, or `|s|` when there is none. */
  function FirstIndex(s: string, c: char, i: nat): (r: nat)
    requires i <= |s|
    ensures i <= r <= |s|
    decreases |s| - i
  {
    if i == |s| || s[i] == c then i else FirstIndex(s, c, i + 1)
  }

  /** A text cut at a character: what precedes it, whether it occurs, and what follows it (empty when it does not). */
  datatype Split = Split(before: string, found: bool, after: string)

  /** Splits `s` at the first occurrence of `c`, if there is one. */
  function SplitAt(s: string, c: char): Split {
    var k := FirstIndex(s, c, 0);
    if k == |s| then Split(s, false, "") else Split(s[..k], true, s[k + 1..])
  }

  /**
   Reads digits with an optional separator `.`: the digits on both sides
   form the coefficient and each digit after the separator lowers the
   exponent by one.
   */
  function MantissaDenotation(m: string): Option<Denoted> {
    var split := SplitAt(m, '.');
    MantissaOf(split.before, split.after)
  }

  /** The mantissa read from the two sides of its separator; a missing separator leaves the right side empty. */
  function MantissaOf(whole: string, fraction: string): Option<Denoted> {
    var digits := whole + fraction;
    if |whole| > 0 && IsDigitText(digits) then
      Some(Denoted(Value(DigitsOf(digits)), -|fraction|))
    else None
  }

  /** Reads a mantissa, optionally followed by `E` and a signed exponent. */
  function Denotation(s: string): Option<Denoted> {
    var split := SplitAt(s, 'E');
    Scaled(MantissaDenotation(split.before), split.found, split.after)
  }

  /** A mantissa scaled by the exponent text after `E`, if there is one. */
  function Scaled(mantissa: Option<Denoted>, found: bool, exponentText: string): Option<Denoted> {
    var shift := if found then ParseInt(exponentText) else Some(0);
    if shift.Some? && mantissa.Some? then
      Some(Denoted(mantissa.value.coefficient, mantissa.value.exponent + shift.value))
    else None
  }

  // ---------------------------------------------------------------------
  // Proofs
  // ---------------------------------------------------------------------

  lemma {:induction false} FirstIndexOf(s: string, c: char, i: nat, k: nat)
    requires i <= k <= |s| && (k < |s| ==> s[k] == c)
    requires forall j :: i <= j < k ==> s[j] != c
    ensures FirstIndex(s, c, i) == k
    decreases k - i
  {
    if i < k {
      FirstIndexOf(s, c, i + 1, k);
    }
  }

  /** The split point is the first occurrence of `c`. */
  lemma SplitAtFirst(a: string, c: char, b: string)
    requires c !in a
    ensures SplitAt(a + [c] + b, c) == Split(a, true, b)
  {
    var s := a + [c] + b;
    FirstIndexOf(s, c, 0, |a|);
    assert s[..|a|] == a && s[|a| + 1..] == b;
  }

  lemma SplitAtAbsent(a: string, c: char)
    requires c !in a
    ensures SplitAt(a, c) == Split(a, false, "")
  {
    FirstIndexOf(a, c, 0, |a|);
  }

  /** Digits without a separator denote their value with exponent 0. */
  lemma MantissaOfDigits(a: seq<nat>)
    requires |a| >= 1 && AllDigits(a)
    ensures MantissaDenotation(Chars(a)) == Some(Denoted(Value(a), 0))
    ensures 'E' !in Chars(a)
  {
    var m := Chars(a);
    CharsAreDigits(a);
    assert SplitAt(m, '.') == Split(m, false, "") by {
      SplitAtAbsent(m, '.');
    }
    assert IsDigitText(m + "") && DigitsOf(m + "") == a by {
      assert m + "" == m;
      CharsRoundTrip(a);
    }
    SidesDenote(m, "", a);
  }

  /** Digits around a separator denote the joined digits, scaled by the fraction length. */
  lemma MantissaOfFraction(a: seq<nat>, b: seq<nat>)
    requires |a| >= 1 && AllDigits(a) && AllDigits(b)
    ensures MantissaDenotation(Chars(a) + "." + Chars(b)) == Some(Denoted(Value(a + b), -|b|))
    ensures 'E' !in Chars(a) + "." + Chars(b)
  {
    var x, y := Chars(a), Chars(b);
    assert SplitAt(x + "." + y, '.') == Split(x, true, y) by {
      CharsAreDigits(a);
      SplitAtFirst(x, '.', y);
    }
    assert IsDigitText(x + y) && DigitsOf(x + y) == a + b by {
      CharsAppend(a, b);
      CharsRoundTrip(a + b);
    }
    MantissaOfSplit(x + "." + y, x, y, a + b);
    assert 'E' !in x + "." + y by {
      CharsAreDigits(a);
      CharsAreDigits(b);
    }
  }

  /** A mantissa split at its separator denotes the digits of both sides, scaled by the right side. */
  lemma MantissaOfSplit(m: string, x: string, y: string, digits: seq<nat>)
    requires SplitAt(m, '.') == Split(x, true, y) && |x| > 0
    requires IsDigitText(x + y) && DigitsOf(x + y) == digits
    ensures MantissaDenotation(m) == Some(Denoted(Value(digits), -|y|))
  {
    SidesDenote(x, y, digits);
  }

  lemma SidesDenote(x: string, y: string, digits: seq<nat>)
    requires |x| > 0 && IsDigitText(x + y) && DigitsOf(x + y) == digits
    ensures MantissaOf(x, y) == Some(Denoted(Value(digits), -|y|))
  {
  }

  /** An `E` suffix adds its exponent to the mantissa's. */
  lemma DenotationWithExponent(m: string, x: int, c: Denoted, v: nat, e: int)
    requires 'E' !in m && MantissaDenotation(m) == Some(c)
    requires v == c.coefficient && e == c.exponent + x
    ensures Denotation(m + "E" + IntToString(x)) == Some(Denoted(v, e))
  {
    SplitAtFirst(m, 'E', IntToString(x));
    IntToStringRoundTrip(x);
    ScaledBy(c, IntToString(x), x, v, e);
  }

  lemma ScaledBy(c: Denoted, t: string, x: int, v: nat, e: int)
    requires ParseInt(t) == Some(x) && v == c.coefficient && e == c.exponent + x
    ensures Scaled(Some(c), true, t) == Some(Denoted(v, e))
  {
  }

  lemma DenotationWithoutExponent(m: string)
    requires 'E' !in m
    ensures Denotation(m) == MantissaDenotation(m)
  {
    SplitAtAbsent(m, 'E');
    Unscaled(MantissaDenotation(m));
  }

  lemma Unscaled(mantissa: Option<Denoted>)
    ensures Scaled(mantissa, false, "") == mantissa
  {
  }

  /** Scientific text with a fraction: one digit, the separator, the rest, and the adjusted exponent. */
  lemma ScientificFractionDenotes(a: seq<nat>, b: seq<nat>, x: int, v: nat, e: int)
    requires |a| == 1 && |b| >= 1 && AllDigits(a) && AllDigits(b)
    requires v == Value(a + b) && e == x - |b|
    ensures Denotation(Chars(a) + "." + Chars(b) + "E" + IntToString(x)) == Some(Denoted(v, e))
  {
    var m := Chars(a) + "." + Chars(b);
    var c := Denoted(Value(a + b), -|b|);
    assert MantissaDenotation(m) == Some(c) && 'E' !in m by {
      MantissaOfFraction(a, b);
    }
    DenotationWithExponent(m, x, c, v, e);
  }

  /** Scientific text of a single digit. */
  lemma ScientificDigitDenotes(a: seq<nat>, x: int)
    requires |a| == 1 && AllDigits(a)
    ensures Denotation(Chars(a) + "E" + IntToString(x)) == Some(Denoted(Value(a), x))
  {
    assert MantissaDenotation(Chars(a)) == Some(Denoted(Value(a), 0)) && 'E' !in Chars(a) by {
      MantissaOfDigits(a);
    }
    DenotationWithExponent(Chars(a), x, Denoted(Value(a), 0), Value(a), x);
  }

  /** Plain text without a separator. */
  lemma DigitsDenote(a: seq<nat>)
    requires |a| >= 1 && AllDigits(a)
    ensures Denotation(Chars(a)) == Some(Denoted(Value(a), 0))
  {
    assert MantissaDenotation(Chars(a)) == Some(Denoted(Value(a), 0)) && 'E' !in Chars(a) by {
      MantissaOfDigits(a);
    }
    DenotationWithoutExponent(Chars(a));
  }

  /** Plain text with a fraction. */
  lemma FractionDenotes(a: seq<nat>, b: seq<nat>)
    requires |a| >= 1 && AllDigits(a) && AllDigits(b)
    ensures Denotation(Chars(a) + "." + Chars(b)) == Some(Denoted(Value(a + b), -|b|))
  {
    var m := Chars(a) + "." + Chars(b);
    assert MantissaDenotation(m) == Some(Denoted(Value(a + b), -|b|)) && 'E' !in m by {
      MantissaOfFraction(a, b);
    }
    DenotationWithoutExponent(m);
  }

  /** Leading zeros after the `0` before the separator do not change the value. */
  lemma PaddedValue(ds: seq<nat>, pad: nat)
    ensures Value([0] + (Zeros(pad) + ds)) == Value(ds)
  {
    var z := Zeros(pad + 1) + ds;
    assert [0] + (Zeros(pad) + ds) == z;
    assert z[..pad + 1] == Zeros(pad + 1);
    assert z[pad + 1..] == ds;
    ValueDropZeros(z, pad + 1);
  }

  /** A fraction after a lone `0`. */
  lemma ZeroFractionDenotes(frac: seq<nat>)
    requires AllDigits(frac)
    ensures Denotation("0" + "." + Chars(frac)) == Some(Denoted(Value([0] + frac), -|frac|))
  {
    assert Chars([0]) == "0";
    FractionDenotes([0], frac);
  }

  lemma RenderScientificDenotes(d: Digits, exponent: int)
    requires WellFormed(d) && UseScientific(|d.digits|, exponent, d.isZero)
    ensures Denotation(Render(d, exponent, ".")) == Some(Denoted(Value(d.digits), exponent))
  {
    if |d.digits| == 1 {
      RenderScientificDigitDenotes(d, exponent);
    } else {
      RenderScientificFractionDenotes(d, exponent);
    }
  }

  lemma RenderScientificDigitDenotes(d: Digits, exponent: int)
    requires WellFormed(d) && UseScientific(|d.digits|, exponent, d.isZero) && |d.digits| == 1
    ensures Denotation(Render(d, exponent, ".")) == Some(Denoted(Value(d.digits), exponent))
  {
    ScientificDigitText(d, exponent);
    ScientificDigitDenotes(d.digits, ScientificExponent(1, exponent));
  }

  lemma RenderScientificFractionDenotes(d: Digits, exponent: int)
    requires WellFormed(d) && UseScientific(|d.digits|, exponent, d.isZero) && |d.digits| > 1
    ensures Denotation(Render(d, exponent, ".")) == Some(Denoted(Value(d.digits), exponent))
  {
    ScientificFractionText(d, exponent);
    SeveralDigitsDenote(d.digits, exponent);
  }

  /** Scientific text of several digits denotes their value with the unadjusted exponent. */
  lemma SeveralDigitsDenote(ds: seq<nat>, exponent: int)
    requires |ds| > 1 && AllDigits(ds)
    ensures Denotation(Chars(ds[..1]) + "." + Chars(ds[1..]) + "E" + IntToString(ScientificExponent(|ds|, exponent)))
      == Some(Denoted(Value(ds), exponent))
  {
    var a, b, x := ds[..1], ds[1..], ScientificExponent(|ds|, exponent);
    assert Value(a + b) == Value(ds) by {
      assert a + b == ds;
    }
    ScientificFractionDenotes(a, b, x, Value(ds), exponent);
  }

  /** Scientific notation of one digit has no separator. */
  lemma ScientificDigitText(d: Digits, exponent: int)
    requires WellFormed(d) && UseScientific(|d.digits|, exponent, d.isZero) && |d.digits| == 1
    ensures Render(d, exponent, ".") == Chars(d.digits) + "E" + IntToString(ScientificExponent(1, exponent))
  {
    assert d.digits[..1] == d.digits;
    assert Chars(d.digits[1..]) == "";
  }

  /** Scientific notation of several digits puts the separator after the first. */
  lemma ScientificFractionText(d: Digits, exponent: int)
    requires WellFormed(d) && UseScientific(|d.digits|, exponent, d.isZero) && |d.digits| > 1
    ensures Render(d, exponent, ".") == Chars(d.digits[..1]) + "." + Chars(d.digits[1..])
      + "E" + IntToString(ScientificExponent(|d.digits|, exponent))
  {
  }

  lemma RenderIntegerDenotes(d: Digits, exponent: int)
    requires WellFormed(d) && !UseScientific(|d.digits|, exponent, d.isZero) && exponent >= 0
    ensures Render(d, exponent, ".") == Chars(d.digits)
    ensures Denotation(Render(d, exponent, ".")) == Some(Denoted(Value(d.digits), exponent))
  {
    PlainIntegerLayout(d, exponent, ".");
    DigitsDenote(d.digits);
  }

  /**
   Plain notation at a non-negative exponent: the exponent is then 0, and
   the text is the bare digits, with neither separator nor exponent mark.
   */
  lemma PlainIntegerLayout(d: Digits, exponent: int, sep: string)
    requires WellFormed(d) && !UseScientific(|d.digits|, exponent, d.isZero) && exponent >= 0
    ensures exponent == 0
    ensures Render(d, exponent, sep) == Chars(d.digits) && IsDigitText(Render(d, exponent, sep))
  {
    CharsAreDigits(d.digits);
  }

  lemma RenderFractionDenotes(d: Digits, exponent: int)
    requires WellFormed(d) && !UseScientific(|d.digits|, exponent, d.isZero) && exponent < 0
    requires |d.digits| + exponent > 0
    ensures Denotation(Render(d, exponent, ".")) == Some(Denoted(Value(d.digits), exponent))
  {
    var ds := d.digits;
    var radix := |ds| + exponent;
    var a, b := ds[..radix], ds[radix..];
    assert a + b == ds;
    WholeFractionText(d, exponent);
    FractionDenotes(a, b);
  }

  /** Plain notation with digits on both sides of the separator has no padding. */
  lemma WholeFractionText(d: Digits, exponent: int)
    requires WellFormed(d) && !UseScientific(|d.digits|, exponent, d.isZero) && exponent < 0
    requires |d.digits| + exponent > 0
    ensures Render(d, exponent, ".") == Chars(d.digits[..|d.digits| + exponent]) + "." + Chars(d.digits[|d.digits| + exponent..])
  {
    assert Chars(Zeros(0)) == "";
  }

  lemma RenderPaddedDenotes(d: Digits, exponent: int)
    requires WellFormed(d) && !UseScientific(|d.digits|, exponent, d.isZero) && exponent < 0
    requires |d.digits| + exponent <= 0
    ensures Denotation(Render(d, exponent, ".")) == Some(Denoted(Value(d.digits), exponent))
  {
    var ds := d.digits;
    var pad := -(|ds| + exponent);
    PaddedText(d, exponent);
    PaddedValue(ds, pad);
    ZeroFractionDenotes(Zeros(pad) + ds);
  }

  /** Plain notation below one: `0`, the separator, the padding zeros and the digits. */
  lemma PaddedText(d: Digits, exponent: int)
    requires WellFormed(d) && !UseScientific(|d.digits|, exponent, d.isZero) && exponent < 0
    requires |d.digits| + exponent <= 0
    ensures Render(d, exponent, ".") == "0" + "." + Chars(Zeros(-(|d.digits| + exponent)) + d.digits)
  {
    assert d.digits[0..] == d.digits;
    CharsAppend(Zeros(-(|d.digits| + exponent)), d.digits);
  }

  /**
   The text `Render` writes with the separator `.` reads back as the value
   of the digits and the exponent it was given, in either notation.
   */
  lemma RenderDenotes(d: Digits, exponent: int)
    requires WellFormed(d)
    ensures Denotation(Render(d, exponent, ".")) == Some(Denoted(Value(d.digits), exponent))
  {
    if UseScientific(|d.digits|, exponent, d.isZero) {
      RenderScientificDenotes(d, exponent);
    } else if exponent >= 0 {
      RenderIntegerDenotes(d, exponent);
    } else if |d.digits| + exponent > 0 {
      RenderFractionDenotes(d, exponent);
    } else {
      RenderPaddedDenotes(d, exponent);
    }
  }

  /**
   The text carries an exponent mark exactly when the formatter chose
   scientific notation (for any separator without an `E` in it).
   */
  lemma ScientificIff(d: Digits, exponent: int, sep: string)
    requires WellFormed(d) && 'E' !in sep
    ensures 'E' in Render(d, exponent, sep) <==> UseScientific(|d.digits|, exponent, d.isZero)
  {
    var ds := d.digits;
    var n := |ds|;
    var text := Render(d, exponent, sep);
    if UseScientific(n, exponent, d.isZero) {
      var m := Chars(ds[..1]) + (if n - 1 != 0 then sep else "") + Chars(ds[1..]);
      assert text == m + "E" + IntToString(ScientificExponent(n, exponent));
      assert text[|m|] == 'E';
    } else if exponent >= 0 {
      CharsAreDigits(ds);
    } else {
      var radix := n + exponent;
      CharsAreDigits(ds[..Max0(radix)]);
      CharsAreDigits(Zeros(Max0(-radix)));
      CharsAreDigits(ds[Max0(radix)..]);
      assert 'E' !in "0";
    }
  }

  /**
   A zero coefficient prints as `0` with exponent 0 and as `0E` followed by
   the exponent otherwise: the formatter never pads zero with fraction
   digits.
   */
  lemma ZeroText(exponent: int, sep: string)
    ensures Render(Digits([0], true), exponent, sep)
      == if exponent == 0 then "0" else "0E" + IntToString(exponent)
  {
    assert [0][..1] == [0] && [0][1..] == [];
    assert Chars([0]) == "0";
  }

  /** Whatever the notation, the text after the sign opens with a digit. */
  lemma RenderLead(d: Digits, exponent: int, sep: string)
    requires WellFormed(d)
    ensures |Render(d, exponent, sep)| >= 1 && IsDigitChar(Render(d, exponent, sep)[0])
  {
    var ds := d.digits;
    var n := |ds|;
    var radix := n + exponent;
    var lead := if UseScientific(n, exponent, d.isZero) then ds[..1]
      else if exponent >= 0 then ds
      else if radix > 0 then ds[..radix]
      else [0];
    assert |lead| >= 1 && AllDigits(lead) && Render(d, exponent, sep)[0] == Chars(lead)[0] by {
      if !UseScientific(n, exponent, d.isZero) && exponent < 0 && radix <= 0 {
        assert Chars([0]) == "0";
      }
    }
    CharsIndex(lead, 0);
  }

  /** `t` is a non-empty digit text, one `.`, and exactly `k` more digits. */
  predicate FractionLayout(t: string, k: nat) {
    |t| >= k + 2 && t[|t| - k - 1] == '.'
    && IsDigitText(t[..|t| - k - 1]) && IsDigitText(t[|t| - k..])
  }

  /**
   Plain notation with a negative exponent writes digits, one separator
   `.`, and exactly `-exponent` digits after it. Before the separator stand
   the digits that are whole, or a single `0` when none is.
   */
  lemma PlainFractionLayout(d: Digits, exponent: int)
    requires WellFormed(d) && !UseScientific(|d.digits|, exponent, d.isZero) && exponent < 0
    ensures FractionLayout(Render(d, exponent, "."), -exponent)
    ensures var t := Render(d, exponent, "."); var radix := |d.digits| + exponent;
      |t| + exponent - 1 >= 1
      && t[..|t| + exponent - 1] == if radix > 0 then Chars(d.digits[..radix]) else "0"
  {
    if |d.digits| + exponent > 0 {
      WholeFractionLayout(d, exponent);
    } else {
      PaddedFractionLayout(d, exponent);
    }
  }

  /** `PlainFractionLayout` when some digits are whole. */
  lemma WholeFractionLayout(d: Digits, exponent: int)
    requires WellFormed(d) && !UseScientific(|d.digits|, exponent, d.isZero) && exponent < 0
    requires |d.digits| + exponent > 0
    ensures FractionLayout(Render(d, exponent, "."), -exponent)
    ensures var t := Render(d, exponent, "."); var radix := |d.digits| + exponent;
      |t| + exponent - 1 >= 1 && t[..|t| + exponent - 1] == Chars(d.digits[..radix])
  {
    var ds := d.digits;
    var radix := |ds| + exponent;
    var t := Render(d, exponent, ".");
    var whole, frac := Chars(ds[..radix]), Chars(ds[radix..]);
    WholeFractionText(d, exponent);
    assert IsDigitText(whole) && IsDigitText(frac) by {
      CharsAreDigits(ds[..radix]);
      CharsAreDigits(ds[radix..]);
    }
    assert t == whole + "." + frac && |frac| == -exponent;
    SeparatedLayout(whole, frac);
  }

  /** `PlainFractionLayout` when no digit is whole: `0`, the separator, padding and the digits. */
  lemma PaddedFractionLayout(d: Digits, exponent: int)
    requires WellFormed(d) && !UseScientific(|d.digits|, exponent, d.isZero) && exponent < 0
    requires |d.digits| + exponent <= 0
    ensures FractionLayout(Render(d, exponent, "."), -exponent)
    ensures var t := Render(d, exponent, ".");
      |t| + exponent - 1 >= 1 && t[..|t| + exponent - 1] == "0"
  {
    var ds := d.digits;
    var radix := |ds| + exponent;
    var t := Render(d, exponent, ".");
    CharsAreDigits(ds);
    var zeros, rest := Chars(Zeros(-radix)), Chars(ds);
    PaddedText(d, exponent);
    CharsAppend(Zeros(-radix), ds);
    assert IsDigitText(zeros + rest) by {
      CharsAreDigits(Zeros(-radix));
      DigitTextAppend(zeros, rest);
    }
    assert t == "0" + "." + (zeros + rest) && |zeros + rest| == -exponent;
    SeparatedLayout("0", zeros + rest);
  }

  lemma SeparatedLayout(whole: string, frac: string)
    requires |whole| >= 1 && IsDigitText(whole) && IsDigitText(frac)
    ensures FractionLayout(whole + "." + frac, |frac|)
    ensures (whole + "." + frac)[..|whole + "." + frac| - |frac| - 1] == whole
  {
    var t := whole + "." + frac;
    assert t[..|t| - |frac| - 1] == whole;
    assert t[|t| - |frac|..] == frac;
  }

  lemma DigitTextAppend(a: string, b: string)
    requires IsDigitText(a) && IsDigitText(b)
    ensures IsDigitText(a + b)
  {
    forall i | 0 <= i < |a + b|
      ensures IsDigitChar((a + b)[i])
    {
      if i >= |a| {
        assert (a + b)[i] == b[i - |a|];
      }
    }
  }

  // ---------------------------------------------------------------------
  // The append loops as written
  // ---------------------------------------------------------------------

  /** Copies `count` digits from position `read` on, advancing the read position past them. */
  method AppendDigits(text: string, ds: seq<nat>, read: nat, count: nat) returns (text': string, read': nat)
    requires AllDigits(ds) && read + count <= |ds|
    ensures read' == read + count
    ensures text' == text + Chars(ds[read .. read + count])
  {
    text', read' := text, read;
    var i := 0;
    while i < count
      invariant 0 <= i <= count && read' == read + i
      invariant text' == text + Chars(ds[read .. read'])
    {
      assert Chars(ds[read .. read' + 1]) == Chars(ds[read .. read']) + Chars([ds[read']]) by {
        assert ds[read .. read' + 1] == ds[read .. read'] + [ds[read']];
        CharsAppend(ds[read .. read'], [ds[read']]);
      }
      text' := text' + Chars([ds[read']]);
      read' := read' + 1;
      i := i + 1;
    }
  }

  /**
   Writes one `0` for each step the radix position is below zero; the
   position is post-incremented by the test, so it ends one past zero
   (or one past where it started, when it started at or above zero).
   */
  method AppendPadding(text: string, radixPosition: int) returns (text': string, radixPosition': int)
    ensures radixPosition' == Max0(radixPosition) + 1
    ensures text' == text + Chars(Zeros(Max0(-radixPosition)))
  {
    text' := text;
    radixPosition' := radixPosition;
    var more := radixPosition' < 0;
    radixPosition' := radixPosition' + 1;
    while more
      invariant radixPosition <= radixPosition' - 1 <= Max0(radixPosition)
      invariant more <==> radixPosition' - 1 < 0
      invariant text' == text + Chars(Zeros(radixPosition' - 1 - radixPosition))
      decreases -radixPosition'
    {
      PadStep(radixPosition' - 1 - radixPosition);
      text' := text' + "0";
      more := radixPosition' < 0;
      radixPosition' := radixPosition' + 1;
    }
  }

  /** One more padding zero is one more `0` on the right. */
  lemma PadStep(n: nat)
    ensures Chars(Zeros(n + 1)) == Chars(Zeros(n)) + "0"
  {
    ZerosSnoc(n);
    CharsAppend(Zeros(n), [0]);
  }

  lemma {:induction false} ZerosSnoc(n: nat)
    ensures Zeros(n + 1) == Zeros(n) + [0]
    decreases n
  {
    if n > 0 {
      ZerosSnoc(n - 1);
    }
  }

  /** The scientific branch: first digit, separator, the rest, `E`, exponent. */
  method FormatScientific(d: Digits, exponent: int, sep: string) returns (text: string)
    requires WellFormed(d) && UseScientific(|d.digits|, exponent, d.isZero)
    ensures text == Render(d, exponent, sep)
  {
    var significand := d.digits;
    var significandDigits := |significand|;
    var scientificExponent := significandDigits - 1 + exponent;
    var significandRead := 0;
    text, significandRead := AppendDigits("", significand, significandRead, 1);
    ghost var head := text;
    significandDigits := significandDigits - 1;
    if significandDigits != 0 {
      text := text + sep;
    }
    ghost var separated := text;
    assert separated == head + (if |significand| - 1 != 0 then sep else "");
    text, significandRead := AppendDigits(text, significand, significandRead, significandDigits);
    ghost var mantissa := text;
    text := text + "E" + IntToString(scientificExponent);
    assert text == mantissa + "E" + IntToString(ScientificExponent(|significand|, exponent));
    ScientificText(d, exponent, sep);
  }

  /**
   Unfolding step for `FormatScientific`: scientific text as the formatter
   assembles it, piece by piece, starting from the empty builder (`""`)
   and with the slices the appends read. `ScientificLayout` states what
   the text is.
   */
  lemma ScientificText(d: Digits, exponent: int, sep: string)
    requires WellFormed(d) && UseScientific(|d.digits|, exponent, d.isZero)
    ensures Render(d, exponent, sep) == "" + Chars(d.digits[0..1]) + (if |d.digits| - 1 != 0 then sep else "")
      + Chars(d.digits[1 .. 1 + (|d.digits| - 1)]) + "E" + IntToString(ScientificExponent(|d.digits|, exponent))
  {
    assert d.digits[0..1] == d.digits[..1];
    assert d.digits[1 .. 1 + (|d.digits| - 1)] == d.digits[1..];
  }

  /**
   Scientific text read character by character. It starts with the first
   digit; the part before its only `E` is that digit, the separator
   exactly when more digits follow, and the other digits; the part after
   the `E` is the decimal text of the scientific exponent, which is never
   0 here: no `+`, no leading zero, and it reads back as that exponent.
   */
  lemma ScientificLayout(d: Digits, exponent: int, sep: string)
    requires WellFormed(d) && UseScientific(|d.digits|, exponent, d.isZero) && 'E' !in sep
    ensures var t := Render(d, exponent, sep);
      var i := FirstIndex(t, 'E', 0);
      i + 1 < |t| && 'E' !in t[i + 1..]
      && t[0] == DigitChar(d.digits[0])
      && t[..i] == Chars(d.digits[..1]) + (if |d.digits| > 1 then sep else "") + Chars(d.digits[1..])
      && t[i + 1] != '+'
      && ParseInt(t[i + 1..]) == Some(ScientificExponent(|d.digits|, exponent))
    ensures var t := Render(d, exponent, sep);
      var i := FirstIndex(t, 'E', 0);
      t[i + 1..] == IntToString(ScientificExponent(|d.digits|, exponent))
      && t[i + 1] != '0' && (t[i + 1] == '-' ==> i + 2 < |t| && t[i + 2] != '0')
  {
    var t := Render(d, exponent, sep);
    var m := Chars(d.digits[..1]) + (if |d.digits| > 1 then sep else "") + Chars(d.digits[1..]);
    var x := IntToString(ScientificExponent(|d.digits|, exponent));
    ScientificText(d, exponent, sep);
    assert d.digits[0..1] == d.digits[..1];
    assert d.digits[1 .. 1 + (|d.digits| - 1)] == d.digits[1..];
    assert t == m + "E" + x;
    CharsAreDigits(d.digits[..1]);
    CharsAreDigits(d.digits[1..]);
    assert 'E' !in m;
    FirstIndexOf(t, 'E', 0, |m|);
    assert t[..|m|] == m;
    assert t[|m| + 1..] == x;
    ExponentText(ScientificExponent(|d.digits|, exponent));
    CharsIndex(d.digits[..1], 0);
    assert t[0] == m[0];
  }

  /** The text of a nonzero exponent: no `+`, no leading zero, no `E`, and it parses back. */
  lemma ExponentText(e: int)
    requires e != 0
    ensures var x := IntToString(e);
      |x| >= 1 && x[0] != '+' && x[0] != '0' && (x[0] == '-' ==> |x| >= 2 && x[1] != '0')
      && 'E' !in x && ParseInt(x) == Some(e)
  {
    IntToStringRoundTrip(e);
    IntToStringLead(e);
  }

  /** The plain branch with a negative exponent. */
  method FormatFraction(d: Digits, exponent: int, sep: string) returns (text: string)
    requires WellFormed(d) && !UseScientific(|d.digits|, exponent, d.isZero) && exponent < 0
    ensures text == Render(d, exponent, sep)
  {
    var significand := d.digits;
    var significandDigits := |significand|;
    var radixPosition := significandDigits + exponent;
    var significandRead;
    text, significandRead := AppendHead(significand, radixPosition);
    ghost var head := text;
    text := text + sep;
    text, radixPosition := AppendPadding(text, radixPosition);
    var remaining := significandDigits - Max0(radixPosition - 1);
    text, significandRead := AppendDigits(text, significand, significandRead, remaining);
    FractionText(d, exponent, sep, head);
  }

  /** The digits before the separator, or a lone `0` when there are none. */
  method AppendHead(ds: seq<nat>, radixPosition: int) returns (text: string, read: nat)
    requires AllDigits(ds) && radixPosition <= |ds|
    ensures read == Max0(radixPosition)
    ensures text == if radixPosition > 0 then Chars(ds[..radixPosition]) else "0"
  {
    if radixPosition > 0 {
      text, read := AppendDigits("", ds, 0, radixPosition);
      assert ds[0..radixPosition] == ds[..radixPosition];
    } else {
      text, read := "0", 0;
    }
  }

  /** The plain text below the units: the head, the separator, the padding and the remaining digits. */
  lemma FractionText(d: Digits, exponent: int, sep: string, head: string)
    requires WellFormed(d) && !UseScientific(|d.digits|, exponent, d.isZero) && exponent < 0
    requires head == if |d.digits| + exponent > 0 then Chars(d.digits[..|d.digits| + exponent]) else "0"
    ensures Render(d, exponent, sep) == head + sep + Chars(Zeros(Max0(-(|d.digits| + exponent))))
      + Chars(d.digits[Max0(|d.digits| + exponent) .. |d.digits|])
  {
    assert d.digits[Max0(|d.digits| + exponent) .. |d.digits|] == d.digits[Max0(|d.digits| + exponent)..];
  }

  /**
   The formatter's body after the special values, with its counters
   `significandDigits`, `significandRead` and `radixPosition`, computes
   `Render`.
   */
  method FormatDigits(d: Digits, exponent: int, sep: string) returns (text: string)
    requires WellFormed(d)
    ensures text == Render(d, exponent, sep)
  {
    var significandDigits := |d.digits|;
    var scientificExponent := significandDigits - 1 + exponent;
    if scientificExponent >= 12 || scientificExponent <= -4 || exponent > 0
      || (d.isZero && scientificExponent != 0)
    {
      text := FormatScientific(d, exponent, sep);
    } else if exponent >= 0 {
      var significandRead;
      text, significandRead := AppendDigits("", d.digits, 0, significandDigits);
      assert d.digits[0..significandDigits] == d.digits;
    } else {
      text := FormatFraction(d, exponent, sep);
    }
  }
}
