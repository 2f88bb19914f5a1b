/**
 The binary significand and its decimal digits.

 The formatter carries the significand as four unsigned 32-bit words, most
 significant first. To print it, it divides those words by 10^9 at most
 four times, spells each nine-digit remainder into a 36-slot scratch array
 (group `k` in slots `9k .. 9k+8`), and then skips leading zero slots. The
 loop stops at the first zero remainder. So a zero group in the middle
 drops every digit above it. A non-zero significand whose lowest group is
 zero leaves all 36 slots zero, and the skipping loop then reads slot 36.

 `Decimal128.cs` and `BsonDecimal.cs` contain textually identical copies
 of this code; both formatters use the single model below.
 */
module Significand {
  import opened Wrappers
  import opened Errors
  import opened DecimalText

  const TwoTo32: nat := 0x1_0000_0000

  /** A C# `uint`. */
  type Word = n: nat | n < TwoTo32

  /** The four significand words `high`, `highMid`, `lowMid`, `low`. */
  datatype Sig = Sig(high: Word, highMid: Word, lowMid: Word, low: Word) {

    /** The unsigned integer the words spell in base 2^32. */
    function Value(): nat {
      ((high * TwoTo32 + highMid) * TwoTo32 + lowMid) * TwoTo32 + low
    }

    predicate IsZero() {
      high == 0 && highMid == 0 && lowMid == 0 && low == 0
    }
  }

  /**
   One step of the long division by 10^9. The remainder carried in the
   64-bit accumulator moves up 32 bits and the next word is added; the
   word becomes the quotient and the accumulator keeps the remainder.
   */
  function DivStep(carry: nat, w: Word): (r: (Word, nat))
    requires carry < Billion
    ensures carry * TwoTo32 + w == r.0 * Billion + r.1
    ensures r.1 < Billion
  {
    var acc := carry * TwoTo32 + w;
    // the accumulator is a ulong; it never wraps because carry < 2^32
    assert acc < 0x1_0000_0000_0000_0000;
    assert acc < TwoTo32 * Billion;
    (acc / Billion, acc % Billion)
  }

  /**
   `DivideByOneBillion`: replaces the words by the quotient of their value
   by 10^9 and returns the remainder. An all-zero input is returned as is,
   with remainder 0.
   */
  function DivideByOneBillion(s: Sig): (r: (Sig, Word))
    ensures s.Value() == r.0.Value() * Billion + r.1
    ensures r.1 < Billion
    ensures s.IsZero() ==> r == (s, 0)
  {
    if s.IsZero() then (s, 0)
    else
      var (high, r1) := DivStep(0, s.high);
      var (highMid, r2) := DivStep(r1, s.highMid);
      var (lowMid, r3) := DivStep(r2, s.lowMid);
      var (low, r4) := DivStep(r3, s.low);
      (Sig(high, highMid, lowMid, low), r4)
  }

  /** Spells a nine-digit remainder into slots `9k .. 9k+8` (the inner loop). */
  function WriteGroup(slots: seq<nat>, k: nat, remainder: nat): (r: seq<nat>)
    requires k <= 3 && |slots| == 36 && AllDigits(slots)
    ensures |r| == 36 && AllDigits(r)
  {
    slots[..9 * k] + Spell(remainder, 9) + slots[9 * k + 9..]
  }

  /**
   The outer digit loop from group `k` down to group 0: each round divides
   by 10^9 and spells the remainder into group `k`. A zero remainder ends
   the loop.
   */
  function Collect(s: Sig, k: int, slots: seq<nat>): (r: seq<nat>)
    requires -1 <= k <= 3 && |slots| == 36 && AllDigits(slots)
    ensures |r| == 36 && AllDigits(r)
    decreases k + 1
  {
    if k < 0 then slots
    else
      var (q, remainder) := DivideByOneBillion(s);
      if remainder == 0 then slots
      else Collect(q, k - 1, WriteGroup(slots, k, remainder))
  }

  /**
   The loop that skips leading zero slots. Reading past the last slot
   throws `IndexOutOfRangeException`.
   */
  function FirstNonzero(slots: seq<nat>, i: nat): (r: Result<nat, Exception>)
    requires i <= |slots|
    ensures r.Success? ==> i <= r.value < |slots| && slots[r.value] != 0 && AllZero(slots[i..r.value])
    ensures r.Failure? ==> r.error == IndexOutOfRange && AllZero(slots[i..])
    decreases |slots| - i
  {
    if i == |slots| then Failure(IndexOutOfRange)
    else if slots[i] != 0 then Success(i)
    else FirstNonzero(slots, i + 1)
  }

  /** The significant digits the formatter prints, and whether the significand is zero. */
  datatype Digits = Digits(digits: seq<nat>, isZero: bool)

  /**
   Digit extraction as the formatter performs it: `[0]` for an all-zero
   significand, otherwise the slots from the first non-zero one on.
   */
  function Significant(s: Sig): (r: Result<Digits, Exception>)
    ensures r.Success? ==> |r.value.digits| >= 1 && AllDigits(r.value.digits)
    ensures r.Failure? ==> r.error == IndexOutOfRange
  {
    if s.IsZero() then Success(Digits([0], true))
    else
      var slots := Collect(s, 3, Zeros(36));
      match FirstNonzero(slots, 0)
      case Failure(e) => Failure(e)
      case Success(i) => Success(Digits(slots[i..], false))
  }

  /**
   The part of `v` the digit loop keeps when it may take `groups` base-10^9
   groups from the bottom and must stop at the first zero group.
   */
  function Kept(v: nat, groups: nat): nat {
    if groups == 0 || v % Billion == 0 then 0
    else Kept(v / Billion, groups - 1) * Billion + v % Billion
  }

  /** No base-10^9 group of `v` below its leading group is zero. */
  predicate Dense(v: nat)
    decreases v
  {
    v < Billion || (v % Billion != 0 && Dense(v / Billion))
  }

  // ---------------------------------------------------------------------
  // Proofs
  // ---------------------------------------------------------------------

  /** The quotient and remainder `DivideByOneBillion` returns are the exact ones. */
  lemma DivideByOneBillionExact(s: Sig)
    ensures DivideByOneBillion(s).0.Value() == s.Value() / Billion
    ensures DivideByOneBillion(s).1 == s.Value() % Billion
  {
    var (q, r) := DivideByOneBillion(s);
    DivModUnique(s.Value(), Billion, q.Value(), r);
  }

  lemma WriteGroupValue(slots: seq<nat>, k: nat, remainder: nat)
    requires k <= 3 && |slots| == 36 && AllDigits(slots)
    requires AllZero(slots[9 * k .. 9 * k + 9]) && remainder < Billion
    ensures Value(WriteGroup(slots, k, remainder)) == Value(slots) + remainder * Pow10(9 * (3 - k))
  {
    var x := Value(slots[..9 * k]) * Pow10(9);
    var pc := Pow10(9 * (3 - k));
    var c := Value(slots[9 * k + 9..]);
    ZeroGroupValue(slots, k);
    SpelledGroupValue(slots[..9 * k], remainder);
    WrittenValue(slots, k, remainder);
    ShiftAdd(x, remainder, pc, c);
  }

  /** With group `k` all zero, the slots are worth their prefix shifted past the group plus their suffix. */
  lemma ZeroGroupValue(slots: seq<nat>, k: nat)
    requires k <= 3 && |slots| == 36 && AllDigits(slots)
    requires AllZero(slots[9 * k .. 9 * k + 9])
    ensures Value(slots) == Value(slots[..9 * k]) * Pow10(9) * Pow10(9 * (3 - k)) + Value(slots[9 * k + 9..])
  {
    var a, z, c := slots[..9 * k], slots[9 * k .. 9 * k + 9], slots[9 * k + 9..];
    assert slots == (a + z) + c;
    ValueAppend(a + z, c);
    ValueAppend(a, z);
    ValueZeroIff(z);
  }

  /** Appending the nine-digit spelling of a group multiplies by 10^9 and adds the group. */
  lemma SpelledGroupValue(a: seq<nat>, remainder: nat)
    requires AllDigits(a) && remainder < Billion
    ensures Value(a + Spell(remainder, 9)) == Value(a) * Pow10(9) + remainder
  {
    ValueAppend(a, Spell(remainder, 9));
    SpellValue(remainder, 9);
    Pow10Nine();
    assert remainder % Billion == remainder;
  }

  /** The written slots are the prefix and the spelled group, shifted past the suffix. */
  lemma WrittenValue(slots: seq<nat>, k: nat, remainder: nat)
    requires k <= 3 && |slots| == 36 && AllDigits(slots)
    ensures Value(WriteGroup(slots, k, remainder)) == Value(slots[..9 * k] + Spell(remainder, 9)) * Pow10(9 * (3 - k)) + Value(slots[9 * k + 9..])
  {
    var a, c := slots[..9 * k], slots[9 * k + 9..];
    var sp := Spell(remainder, 9);
    assert WriteGroup(slots, k, remainder) == (a + sp) + c;
    assert |c| == 9 * (3 - k);
    ValueAppend(a + sp, c);
  }

  /** Spelling group `k` leaves the lower-numbered slots as they were. */
  lemma WriteGroupKeepsPrefix(slots: seq<nat>, k: nat, remainder: nat)
    requires k <= 3 && |slots| == 36 && AllDigits(slots)
    requires AllZero(slots[..9 * (k + 1)])
    ensures AllZero(WriteGroup(slots, k, remainder)[..9 * k])
  {
    assert WriteGroup(slots, k, remainder)[..9 * k] == slots[..9 * k];
    assert slots[..9 * k] == slots[..9 * (k + 1)][..9 * k];
  }

  lemma ShiftAdd(x: int, r: int, p: int, c: int)
    ensures (x + r) * p + c == (x * p + c) + r * p
  {
  }

  /** What the outer loop leaves in the slots, as a number. */
  lemma {:induction false} CollectValue(s: Sig, k: int, slots: seq<nat>)
    requires -1 <= k <= 3 && |slots| == 36 && AllDigits(slots)
    requires AllZero(slots[..9 * (k + 1)])
    ensures Value(Collect(s, k, slots)) == Kept(s.Value(), k + 1) * Pow10(9 * (3 - k)) + Value(slots)
    decreases k + 1
  {
    if k >= 0 && DivideByOneBillion(s).1 != 0 {
      var q, remainder := DivideByOneBillion(s).0, DivideByOneBillion(s).1;
      var slots' := WriteGroup(slots, k, remainder);
      CollectRound(s, k, slots);
      CollectValue(q, k - 1, slots');
      CollectStep(s.Value(), k, slots, remainder, Value(Collect(q, k - 1, slots')));
    } else {
      CollectStops(s, k, slots);
    }
  }

  /** A round with a non-zero remainder spells it into group `k` and continues on the quotient. */
  lemma CollectRound(s: Sig, k: nat, slots: seq<nat>)
    requires k <= 3 && |slots| == 36 && AllDigits(slots)
    requires AllZero(slots[..9 * (k + 1)]) && DivideByOneBillion(s).1 != 0
    ensures var (q, remainder) := DivideByOneBillion(s);
      q.Value() == s.Value() / Billion && remainder == s.Value() % Billion
      && Collect(s, k, slots) == Collect(q, k - 1, WriteGroup(slots, k, remainder))
      && AllZero(WriteGroup(slots, k, remainder)[..9 * k])
  {
    DivideByOneBillionExact(s);
    WriteGroupKeepsPrefix(slots, k, DivideByOneBillion(s).1);
  }

  /** When no group is left or the remainder is zero, the slots stay as they are and nothing is kept. */
  lemma CollectStops(s: Sig, k: int, slots: seq<nat>)
    requires -1 <= k <= 3 && |slots| == 36 && AllDigits(slots)
    requires k < 0 || DivideByOneBillion(s).1 == 0
    ensures Value(Collect(s, k, slots)) == Kept(s.Value(), k + 1) * Pow10(9 * (3 - k)) + Value(slots)
  {
    DivideByOneBillionExact(s);
    assert Collect(s, k, slots) == slots;
    assert Kept(s.Value(), k + 1) == 0;
    NothingKept(Kept(s.Value(), k + 1), Pow10(9 * (3 - k)), Value(slots));
  }

  lemma NothingKept(kept: nat, w: nat, rest: nat)
    requires kept == 0
    ensures kept * w + rest == rest
  {
  }

  /** One round of the outer loop: group `k` spelled, the lower groups collected from the quotient. */
  lemma CollectStep(v: nat, k: nat, slots: seq<nat>, remainder: nat, total: nat)
    requires k <= 3 && |slots| == 36 && AllDigits(slots)
    requires AllZero(slots[..9 * (k + 1)])
    requires remainder == v % Billion && remainder != 0
    requires total == Kept(v / Billion, k) * Pow10(9 * (3 - (k - 1))) + Value(WriteGroup(slots, k, remainder))
    ensures total == Kept(v, k + 1) * Pow10(9 * (3 - k)) + Value(slots)
  {
    assert Value(WriteGroup(slots, k, remainder)) == Value(slots) + remainder * Pow10(9 * (3 - k)) by {
      assert slots[9 * k .. 9 * k + 9] == slots[..9 * (k + 1)][9 * k..];
      WriteGroupValue(slots, k, remainder);
    }
    GroupStep(Kept(v, k + 1), Kept(v / Billion, k), remainder, k, total, Value(slots));
  }

  /** Arithmetic step of `CollectValue`: one more group shifts the kept part by 10^9. */
  lemma RegroupWeights(total: int, kept: int, kq: int, remainder: int, w: int, rest: int)
    requires kept == kq * Billion + remainder
    requires total == kq * (Billion * w) + remainder * w + rest
    ensures total == kept * w + rest
  {
    assert kept * w == kq * Billion * w + remainder * w;
  }

  /** One more group below shifts the groups already collected by 10^9. */
  lemma GroupStep(kept: nat, kq: nat, remainder: nat, k: nat, total: int, rest: int)
    requires k <= 3 && kept == kq * Billion + remainder
    requires total == kq * Pow10(9 * (3 - (k - 1))) + (rest + remainder * Pow10(9 * (3 - k)))
    ensures total == kept * Pow10(9 * (3 - k)) + rest
  {
    var w := Pow10(9 * (3 - k));
    assert Pow10(9 * (3 - (k - 1))) == Billion * w by {
      assert 9 * (3 - (k - 1)) == 9 + 9 * (3 - k);
      Pow10Add(9, 9 * (3 - k));
      Pow10Nine();
    }
    RegroupWeights(total, kept, kq, remainder, w, rest);
  }

  /** The loop keeps all of `v` exactly when no group below the leading one is zero. */
  lemma {:induction false} KeptIsValue(v: nat, groups: nat)
    requires v < Pow10(9 * groups)
    ensures Kept(v, groups) == v <==> Dense(v)
    decreases groups
  {
    if groups > 0 && v % Billion != 0 {
      Pow10Add(9, 9 * (groups - 1));
      Pow10Nine();
      assert v / Billion < Pow10(9 * (groups - 1));
      KeptIsValue(v / Billion, groups - 1);
    }
  }

  /** The loop keeps nothing exactly when the lowest group is zero. */
  lemma KeptZero(v: nat, groups: nat)
    requires groups >= 1
    ensures Kept(v, groups) == 0 <==> v % Billion == 0
  {
  }

  /**
   Digit extraction in closed form: `[0]` for a zero significand, a thrown
   `IndexOutOfRangeException` for a non-zero one whose lowest group is zero,
   and otherwise the canonical digits of the kept part.
   */
  lemma SignificantSpec(s: Sig)
    ensures s.Value() == 0 ==> Significant(s) == Success(Digits([0], true))
    ensures s.Value() != 0 && s.Value() % Billion == 0 ==> Significant(s) == Failure(IndexOutOfRange)
    ensures s.Value() % Billion != 0 ==>
      Significant(s) == Success(Digits(Canonical(Kept(s.Value(), 4)), false))
  {
    var v := s.Value();
    assert s.IsZero() <==> v == 0;
    if !s.IsZero() {
      var slots := Collect(s, 3, Zeros(36));
      var kept := Kept(v, 4);
      assert Value(slots) == kept by {
        CollectValue(s, 3, Zeros(36));
        ValueZeroIff(Zeros(36));
      }
      assert kept == 0 <==> v % Billion == 0 by {
        KeptZero(v, 4);
      }
      if kept == 0 {
        assert FirstNonzero(slots, 0).Failure? by {
          ValueZeroIff(slots);
        }
      } else {
        SlotsCanonical(slots, kept);
      }
    }
  }

  /** Slots worth a non-zero `v` hold, from their first non-zero slot on, the canonical digits of `v`. */
  lemma SlotsCanonical(slots: seq<nat>, v: nat)
    requires AllDigits(slots) && Value(slots) == v && v != 0
    ensures FirstNonzero(slots, 0).Success?
    ensures slots[FirstNonzero(slots, 0).value..] == Canonical(v)
  {
    assert FirstNonzero(slots, 0).Success? by {
      ValueZeroIff(slots);
      assert slots[0..] == slots;
    }
    var i := FirstNonzero(slots, 0).value;
    assert slots[0..i] == slots[..i];
    ValueDropZeros(slots, i);
    CanonicalUnique(slots[i..]);
  }

  /**
   The slots spell the whole significand exactly when no group below the
   leading one is zero (every significand below 10^36 fits four groups).
   */
  lemma SpellsSignificand(s: Sig)
    requires s.Value() < Pow10(36)
    ensures Dense(s.Value()) <==> Significant(s) == Success(Digits(Canonical(s.Value()), s.Value() == 0))
  {
    var v := s.Value();
    SignificantSpec(s);
    KeptIsValue(v, 4);
    if v != 0 && v % Billion != 0 {
      CanonicalValue(v);
      CanonicalValue(Kept(v, 4));
    }
  }

  /** Significand 10^9: the loop stops at once and the skipping loop reads slot 36. */
  lemma OneBillionThrows()
    ensures Significant(Sig(0, 0, 0, Billion)) == Failure(IndexOutOfRange)
  {
    SignificantSpec(Sig(0, 0, 0, Billion));
  }

  /** Significand 10^18 + 1: the zero middle group hides the leading digit. */
  lemma MiddleZeroGroupDropsDigits()
    ensures Sig(0, 0, 0x0DE0B6B3, 0xA7640001).Value() == 1_000_000_000_000_000_001
    ensures Significant(Sig(0, 0, 0x0DE0B6B3, 0xA7640001)) == Success(Digits([1], false))
  {
    var s := Sig(0, 0, 0x0DE0B6B3, 0xA7640001);
    SignificantSpec(s);
    assert Kept(s.Value(), 4) == 1;
  }

  // ---------------------------------------------------------------------
  // The loops as written
  // ---------------------------------------------------------------------

  /**
   The digit extraction as the C# code performs it, on a 36-slot array:
   the outer loop over groups with its early `break`, the inner loop that
   writes a remainder right to left, and the loop that skips zero slots.
   */
  method ExtractDigits(s: Sig) returns (r: Result<Digits, Exception>)
    ensures r == Significant(s)
  {
    var significand := new nat[36](_ => 0);
    var isZero := false;
    if s.high == 0 && s.highMid == 0 && s.lowMid == 0 && s.low == 0 {
      isZero := true;
    } else {
      assert significand[..] == Zeros(36);
      FillGroups(significand, s);
    }
    var digits := 1;
    var read := 0;
    if !isZero {
      var first := SkipZeros(significand);
      var slots := significand[..];
      NonzeroDigits(s, slots, first);
      if first.Failure? {
        return Failure(first.error);
      }
      read := first.value;
      digits := 36 - read;
      r := Success(Digits(slots[read .. read + digits], isZero));
    } else {
      r := Success(Digits([significand[0]], isZero));
    }
  }

  /** For a non-zero significand, `Significant` is what the skipping loop finds in the collected slots. */
  lemma NonzeroDigits(s: Sig, slots: seq<nat>, first: Result<nat, Exception>)
    requires !s.IsZero() && slots == Collect(s, 3, Zeros(36)) && first == FirstNonzero(slots, 0)
    ensures first.Failure? ==> Significant(s) == Failure(first.error)
    ensures first.Success? ==> |slots| == 36 && Significant(s) == Success(Digits(slots[first.value .. 36], false))
  {
    assert |slots| == 36;
    if first.Success? {
      assert slots[first.value .. 36] == slots[first.value..];
    }
  }

  /** The outer loop over the four groups, stopping at the first zero remainder. */
  method FillGroups(significand: array<nat>, s: Sig)
    requires significand.Length == 36 && significand[..] == Zeros(36)
    modifies significand
    ensures significand[..] == Collect(s, 3, Zeros(36))
  {
    var sig := s;
    var k := 3;
    while k >= 0
      invariant -1 <= k <= 3
      invariant AllDigits(significand[..])
      invariant Collect(sig, k, significand[..]) == Collect(s, 3, Zeros(36))
      decreases k
    {
      var quotient, remainder := DivideByOneBillion(sig).0, DivideByOneBillion(sig).1;
      if remainder == 0 {
        break;
      }
      WriteRemainder(significand, k, remainder);
      sig := quotient;
      k := k - 1;
    }
  }

  /** The inner loop: spells `remainder` into slots `9k .. 9k+8`, last digit first. */
  method WriteRemainder(significand: array<nat>, k: nat, remainder: nat)
    requires significand.Length == 36 && k <= 3 && AllDigits(significand[..])
    modifies significand
    ensures significand[..] == WriteGroup(old(significand[..]), k, remainder)
  {
    ghost var before := significand[..];
    var base := 9 * k;
    var rem := remainder;
    var j := 8;
    while j >= 0
      invariant -1 <= j <= 8
      invariant significand[..] == before[..base + j + 1] + Spell(remainder, 8 - j) + before[base + 9..]
      invariant rem == remainder / Pow10(8 - j)
      decreases j
    {
      WriteStep(before, significand[..], base, j, remainder, rem);
      significand[base + j] := rem % 10;
      rem := rem / 10;
      j := j - 1;
    }
  }

  /** One round of the digit-writing loop: slot `base + j` receives the next digit from the right. */
  lemma WriteStep(before: seq<nat>, current: seq<nat>, base: nat, j: nat, remainder: nat, rem: nat)
    requires j <= 8 && base + 9 <= |before|
    requires current == before[..base + j + 1] + Spell(remainder, 8 - j) + before[base + 9..]
    requires rem == remainder / Pow10(8 - j)
    ensures current[base + j := rem % 10] == before[..base + j] + Spell(remainder, 9 - j) + before[base + 9..]
    ensures rem / 10 == remainder / Pow10(9 - j)
  {
    SpellPrepend(remainder, 8 - j);
    DivDiv(remainder, Pow10(8 - j), 10);
    SlotWritten(before, current, base + j, rem % 10, Spell(remainder, 8 - j), before[base + 9..]);
  }

  /** Overwriting the last slot of an unwritten prefix extends the written run on the left. */
  lemma SlotWritten(before: seq<nat>, current: seq<nat>, i: nat, x: nat, written: seq<nat>, rest: seq<nat>)
    requires i < |before| && current == before[..i + 1] + written + rest
    ensures current[i := x] == before[..i] + ([x] + written) + rest
  {
    assert before[..i + 1] == before[..i] + [before[i]];
  }

  /** The loop that skips leading zero slots, reading slot 36 when all are zero. */
  method SkipZeros(significand: array<nat>) returns (r: Result<nat, Exception>)
    requires significand.Length == 36
    ensures r == FirstNonzero(significand[..], 0)
  {
    var read := 0;
    while true
      invariant 0 <= read <= 36
      invariant FirstNonzero(significand[..], read) == FirstNonzero(significand[..], 0)
      decreases 36 - read
    {
      if read == significand.Length {
        // significand[36]
        return Failure(IndexOutOfRange);
      }
      if significand[read] != 0 {
        return Success(read);
      }
      read := read + 1;
    }
  }
}
