/**
 The digit loop with its evident intent restored, and the formatter built
 on it.

 The loop in `Decimal128.cs` and `BsonDecimal.cs` ends at the first zero
 base-10^9 remainder. The corrected loop instead skips that group,
 whose slots the fresh array already holds as zeros, and goes on dividing.
 This module states the corrected loop and proves that it spells every
 significand below 10^36 exactly, so that every finite value prints as a
 text that reads back as its own significand and exponent.
 */
module CorrectedDigits {
  import opened Wrappers
  import opened Errors
  import opened DecimalText
  import opened Significand
  import opened Notation
  import opened Decimal128

  /**
   The corrected outer digit loop:
   a zero remainder skips its group, whose slots stay zero, and the loop
   goes on with the next group instead of ending.
   */
  function CollectAll(s: Sig, k: int, slots: seq<nat>): (r: seq<nat>)
    requires -1 <= k <= 3 && |slots| == 36 && AllDigits(slots)
    ensures |r| == 36 && AllDigits(r)
    decreases k + 1
  {
    if k < 0 then slots
    else
      var (q, remainder) := DivideByOneBillion(s);
      if remainder == 0 then CollectAll(q, k - 1, slots)
      else CollectAll(q, k - 1, WriteGroup(slots, k, remainder))
  }

  /** Digit extraction over the corrected outer loop; the skipping loop is unchanged. */
  function SignificantAll(s: Sig): (r: Result<Digits, Exception>)
    ensures r.Success? ==> |r.value.digits| >= 1 && AllDigits(r.value.digits)
  {
    if s.IsZero() then Success(Digits([0], true))
    else
      var slots := CollectAll(s, 3, Zeros(36));
      match FirstNonzero(slots, 0)
      case Failure(e) => Failure(e)
      case Success(i) => Success(Digits(slots[i..], false))
  }

  /** The lowest `groups` base-10^9 groups of `v`, zero groups included. */
  function Lowest(v: nat, groups: nat): nat {
    if groups == 0 then 0
    else Lowest(v / Billion, groups - 1) * Billion + v % Billion
  }

  /**
   `ToString()` with the digit loop corrected to skip a zero base-10^9
   group instead of stopping at it; the special values print as before.
   */
  function ToStringCorrected(d: Decimal128): Result<string, Exception> {
    if d.IsSpecial() then ToString(d)
    else
      var digits :- SignificantAll(d.Significand());
      Success(SignText(d) + Render(digits, d.exponent, InvariantSeparator))
  }

  // ---------------------------------------------------------------------
  // Proofs
  // ---------------------------------------------------------------------

  /** Four groups hold every significand below 10^36 in full. */
  lemma {:induction false} LowestIsValue(v: nat, groups: nat)
    requires v < Pow10(9 * groups)
    ensures Lowest(v, groups) == v
    decreases groups
  {
    if groups > 0 {
      Pow10Add(9, 9 * (groups - 1));
      Pow10Nine();
      assert v / Billion < Pow10(9 * (groups - 1));
      LowestIsValue(v / Billion, groups - 1);
    } else {
      assert Pow10(0) == 1;
    }
  }

  /** What the corrected outer loop leaves in the slots, as a number. */
  lemma {:induction false} CollectAllValue(s: Sig, k: int, slots: seq<nat>)
    requires -1 <= k <= 3 && |slots| == 36 && AllDigits(slots)
    requires AllZero(slots[..9 * (k + 1)])
    ensures Value(CollectAll(s, k, slots)) == Lowest(s.Value(), k + 1) * Pow10(9 * (3 - k)) + Value(slots)
    decreases k + 1
  {
    if k >= 0 {
      var q, remainder := DivideByOneBillion(s).0, DivideByOneBillion(s).1;
      var slots' := if remainder == 0 then slots else WriteGroup(slots, k, remainder);
      CollectAllRound(s, k, slots, q, remainder, slots');
      SkipOrWrite(slots, k, remainder, slots');
      CollectAllValue(q, k - 1, slots');
      GroupStep(Lowest(s.Value(), k + 1), Lowest(q.Value(), k), remainder, k,
        Value(CollectAll(q, k - 1, slots')), Value(slots));
    } else {
      assert Lowest(s.Value(), k + 1) == 0;
      NothingKept(Lowest(s.Value(), k + 1), Pow10(9 * (3 - k)), Value(slots));
    }
  }

  /** One round of the corrected loop: divide, then write group `k` or skip it, and go on with the quotient. */
  lemma CollectAllRound(s: Sig, k: nat, slots: seq<nat>, q: Sig, remainder: nat, slots': seq<nat>)
    requires k <= 3 && |slots| == 36 && AllDigits(slots)
    requires (q, remainder) == DivideByOneBillion(s)
    requires slots' == if remainder == 0 then slots else WriteGroup(slots, k, remainder)
    ensures remainder < Billion
    ensures CollectAll(s, k, slots) == CollectAll(q, k - 1, slots')
    ensures Lowest(s.Value(), k + 1) == Lowest(q.Value(), k) * Billion + remainder
  {
    DivideByOneBillionExact(s);
  }

  /** A round of the corrected loop adds the remainder at group `k`, written or skipped alike. */
  lemma SkipOrWrite(slots: seq<nat>, k: nat, remainder: nat, slots': seq<nat>)
    requires k <= 3 && |slots| == 36 && AllDigits(slots)
    requires AllZero(slots[..9 * (k + 1)]) && remainder < Billion
    requires slots' == if remainder == 0 then slots else WriteGroup(slots, k, remainder)
    ensures |slots'| == 36 && AllDigits(slots') && AllZero(slots'[..9 * k])
    ensures Value(slots') == Value(slots) + remainder * Pow10(9 * (3 - k))
  {
    if remainder == 0 {
      assert slots'[..9 * k] == slots[..9 * (k + 1)][..9 * k];
    } else {
      assert slots[9 * k .. 9 * k + 9] == slots[..9 * (k + 1)][9 * k..];
      WriteGroupValue(slots, k, remainder);
      WriteGroupKeepsPrefix(slots, k, remainder);
    }
  }

  /**
   With the corrected loop every significand below 10^36 yields its own
   canonical digits: `[0]` for zero, no exception and no dropped group
   otherwise.
   */
  lemma SignificantAllSpec(s: Sig)
    requires s.Value() < Pow10(36)
    ensures SignificantAll(s) == Success(Digits(Canonical(s.Value()), s.Value() == 0))
  {
    var v := s.Value();
    assert s.IsZero() <==> v == 0;
    if !s.IsZero() {
      var slots := CollectAll(s, 3, Zeros(36));
      CollectAllWhole(s, Zeros(36));
      SlotsCanonical(slots, v);
    }
  }

  /** The corrected loop spells the whole significand into the 36 slots. */
  lemma CollectAllWhole(s: Sig, none: seq<nat>)
    requires s.Value() < Pow10(36) && |none| == 36 && AllDigits(none) && AllZero(none)
    ensures Value(CollectAll(s, 3, none)) == s.Value()
  {
    var v, k := s.Value(), 3;
    var total := Value(CollectAll(s, k, none));
    assert total == Lowest(v, k + 1) * Pow10(9 * (3 - k)) + Value(none) by {
      CollectAllValue(s, k, none);
    }
    assert Value(none) == 0 by {
      ValueZeroIff(none);
    }
    assert Lowest(v, k + 1) == v by {
      LowestIsValue(v, k + 1);
    }
    assert Pow10(9 * (3 - k)) == 1;
    assert total == v;
  }

  /**
   The loop as written and the corrected one extract the same digits
   exactly when no group below the leading one is zero.
   */
  lemma BreakAgreesIff(s: Sig)
    requires s.Value() < Pow10(36)
    ensures Significant(s) == SignificantAll(s) <==> Dense(s.Value())
  {
    SignificantAllSpec(s);
    SpellsSignificand(s);
  }

  /** Significand 10^18 + 1 keeps all nineteen digits under the corrected loop. */
  lemma MiddleZeroGroupKept()
    ensures SignificantAll(Sig(0, 0, 0x0DE0B6B3, 0xA7640001))
      == Success(Digits(Canonical(1_000_000_000_000_000_001), false))
  {
    var s := Sig(0, 0, 0x0DE0B6B3, 0xA7640001);
    assert s.Value() == 1_000_000_000_000_000_001;
    Pow10ThirtySix();
    SignificantAllSpec(s);
  }

  /**
   With the corrected digit loop every finite decoded value prints without
   error, the text after the sign reads back as exactly its significand and
   exponent, and it is in scientific notation exactly when the formatter's
   thresholds say so.
   */
  lemma CorrectedTextDenotes(p: Parts)
    requires !Decode(p).IsSpecial()
    ensures ToStringCorrected(Decode(p)).Success?
    ensures Denotation(Unsigned(ToStringCorrected(Decode(p)).value))
      == Some(Denoted(Decode(p).Significand().Value(), Decode(p).exponent))
    ensures var v := Decode(p).Significand().Value();
      'E' in ToStringCorrected(Decode(p)).value <==> UseScientific(|Canonical(v)|, Decode(p).exponent, v == 0)
  {
    var d := Decode(p);
    var v := d.Significand().Value();
    var ds := Digits(Canonical(v), v == 0);
    assert SignificantAll(d.Significand()) == Success(ds) by {
      DecodeBounds(p);
      SignificantAllSpec(d.Significand());
    }
    assert ToStringCorrected(d) == Success(SignText(d) + Render(ds, d.exponent, "."));
    assert Value(ds.digits) == v by {
      CanonicalValue(v);
    }
    SignedRenderDenotes(SignText(d), ds, d.exponent);
  }

  /**
   The formatter as written prints the same text as the corrected one
   exactly when no base-10^9 group below the leading one is zero.
   */
  lemma CorrectedAgreesIff(p: Parts)
    requires !Decode(p).IsSpecial()
    ensures ToString(Decode(p)) == ToStringCorrected(Decode(p)) <==> Dense(Decode(p).Significand().Value())
  {
    var d := Decode(p);
    var v := d.Significand().Value();
    CorrectedTextDenotes(p);
    if Dense(v) {
      DenseTextDenotes(p);
      DecodeBounds(p);
      SpellsSignificand(d.Significand());
      SignificantAllSpec(d.Significand());
      ToStringDigits(d, InvariantSeparator);
    } else if ToString(d) == ToStringCorrected(d) {
      TextDenotes(d);
      DecodeBounds(p);
      KeptIsValue(v, 4);
      assert false;
    }
  }
}
