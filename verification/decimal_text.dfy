/**
 Decimal digit sequences and their text.

 A digit sequence is a `seq<nat>` of values below ten, most significant
 first, like the `uint[36]` scratch array the formatter fills. This module
 gives the number such a sequence spells, the canonical (shortest) spelling
 of a natural number, the fixed-width spelling the digit loop writes, and
 the ASCII text `StringBuilder.Append` produces for a digit or an `int`,
 together with parsers that invert that text.
 */
module DecimalText {
  import opened Wrappers

  /** The divisor of the digit loop: one base-10^9 group holds nine digits. */
  const Billion: nat := 1_000_000_000

  function Pow10(n: nat): (p: nat)
    ensures p >= 1
  {
    if n == 0 then 1 else 10 * Pow10(n - 1)
  }

  predicate AllDigits(ds: seq<nat>) {
    forall i :: 0 <= i < |ds| ==> ds[i] < 10
  }

  predicate AllZero(ds: seq<nat>) {
    forall i :: 0 <= i < |ds| ==> ds[i] == 0
  }

  /** The number `ds` spells in base ten, most significant digit first. */
  function Value(ds: seq<nat>): nat
  {
    if |ds| == 0 then 0 else Value(ds[..|ds| - 1]) * 10 + ds[|ds| - 1]
  }

  function Zeros(n: nat): (z: seq<nat>)
    ensures |z| == n && AllZero(z) && AllDigits(z)
  {
    if n == 0 then [] else [0] + Zeros(n - 1)
  }

  /**
   The low `width` decimal digits of `n`, most significant first and with
   leading zeros kept: what a loop writing `n % 10` and then dividing by ten
   leaves in `width` slots filled from right to left.
   */
  function Spell(n: nat, width: nat): (ds: seq<nat>)
    ensures |ds| == width && AllDigits(ds)
  {
    if width == 0 then [] else Spell(n / 10, width - 1) + [n % 10]
  }

  /** The shortest decimal spelling of `n`; zero is spelled `[0]`. */
  function Canonical(n: nat): (ds: seq<nat>)
    ensures |ds| >= 1 && AllDigits(ds)
    ensures n > 0 <==> ds[0] != 0
  {
    if n < 10 then [n] else Canonical(n / 10) + [n % 10]
  }

  // ---------------------------------------------------------------------
  // Euclidean division facts
  // ---------------------------------------------------------------------

  lemma DivModUnique(n: int, m: int, q: int, r: int)
    requires m > 0 && 0 <= r < m && n == q * m + r
    ensures n / m == q && n % m == r
  {
    var q', r' := n / m, n % m;
    assert n == q' * m + r';
    if q' > q {
      assert (q' - q) * m >= m by { MulAtLeast(q' - q, m); }
      assert false;
    } else if q' < q {
      assert (q - q') * m >= m by { MulAtLeast(q - q', m); }
      assert false;
    }
  }

  lemma MulAtLeast(a: int, m: int)
    requires a >= 1 && m > 0
    ensures a * m >= m
  {
  }

  lemma DivDiv(n: nat, a: nat, b: nat)
    requires a > 0 && b > 0
    ensures (n / a) / b == n / (a * b)
  {
    var q1, r1 := n / a, n % a;
    var q2, r2 := q1 / b, q1 % b;
    assert a * r2 <= a * (b - 1) by { MulMono(a, r2, b - 1); }
    assert n == (q2 * b + r2) * a + r1;
    assert n == q2 * (a * b) + (a * r2 + r1);
    DivModUnique(n, a * b, q2, a * r2 + r1);
  }

  lemma MulMono(a: nat, x: nat, y: nat)
    requires x <= y
    ensures a * x <= a * y
  {
  }

  /** Splitting off the last digit commutes with reducing modulo `10 * p`. */
  lemma ModTenStep(n: nat, p: nat)
    requires p >= 1
    ensures ((n / 10) % p) * 10 + n % 10 == n % (10 * p)
  {
    var q := n / 10;
    var a, b := q / p, q % p;
    assert q == a * p + b;
    assert n == (10 * p) * a + (b * 10 + n % 10);
    DivModUnique(n, 10 * p, a, b * 10 + n % 10);
  }

  lemma {:induction false} Pow10Add(a: nat, b: nat)
    ensures Pow10(a + b) == Pow10(a) * Pow10(b)
    decreases a
  {
    if a > 0 {
      Pow10Add(a - 1, b);
    }
  }

  lemma Pow10Nine()
    ensures Pow10(9) == Billion
  {
  }

  lemma Pow10ThirtySix()
    ensures Pow10(36) == 1_000_000_000_000_000_000_000_000_000_000_000_000
  {
    Pow10Nine();
    Pow10Add(9, 9);
    Pow10Add(18, 18);
  }

  // ---------------------------------------------------------------------
  // Values of digit sequences
  // ---------------------------------------------------------------------

  /** Concatenation shifts the left part by the length of the right part. */
  lemma {:induction false} ValueAppend(a: seq<nat>, b: seq<nat>)
    ensures Value(a + b) == Value(a) * Pow10(|b|) + Value(b)
    decreases |b|
  {
    if |b| == 0 {
      assert a + b == a;
    } else {
      var b', last := b[..|b| - 1], b[|b| - 1];
      assert (a + b)[..|a + b| - 1] == a + b';
      assert Value(a + b) == Value(a + b') * 10 + last;
      ValueAppend(a, b');
      assert Value(b) == Value(b') * 10 + last;
      ShiftDigit(Value(a), Pow10(|b'|), Value(b'), last);
    }
  }

  /** Appending a digit on the right of a shifted sum shifts both parts once more. */
  lemma ShiftDigit(x: int, p: int, y: int, d: int)
    ensures (x * p + y) * 10 + d == x * (p * 10) + (y * 10 + d)
  {
    assert (x * p) * 10 == x * (p * 10);
  }

  lemma {:induction false} ValueZeroIff(ds: seq<nat>)
    ensures Value(ds) == 0 <==> AllZero(ds)
    decreases |ds|
  {
    if |ds| > 0 {
      var p := ds[..|ds| - 1];
      ValueZeroIff(p);
      if AllZero(p) && ds[|ds| - 1] == 0 {
        forall i | 0 <= i < |ds|
          ensures ds[i] == 0
        {
          if i < |ds| - 1 {
            assert ds[i] == p[i];
          }
        }
      }
    }
  }

  /** Leading zeros do not change the value. */
  lemma ValueDropZeros(ds: seq<nat>, i: nat)
    requires i <= |ds| && AllZero(ds[..i])
    ensures Value(ds[i..]) == Value(ds)
  {
    assert ds == ds[..i] + ds[i..];
    ValueAppend(ds[..i], ds[i..]);
    ValueZeroIff(ds[..i]);
  }

  lemma {:induction false} ValueAtLeastLead(ds: seq<nat>)
    requires |ds| >= 1
    ensures Value(ds) >= ds[0]
    decreases |ds|
  {
    if |ds| > 1 {
      var p := ds[..|ds| - 1];
      ValueAtLeastLead(p);
      assert p[0] == ds[0];
    } else {
      assert ds[..0] == [];
    }
  }

  /** `Spell` keeps exactly the low `width` digits. */
  lemma {:induction false} SpellValue(n: nat, width: nat)
    ensures Value(Spell(n, width)) == n % Pow10(width)
    decreases width
  {
    if width > 0 {
      SpellValue(n / 10, width - 1);
      var s := Spell(n, width);
      assert s[..|s| - 1] == Spell(n / 10, width - 1);
      ModTenStep(n, Pow10(width - 1));
    }
  }

  /**
   Writing one more digit on the left of a spelling: the digit of weight
   `10^width`. This is the step the right-to-left digit loop takes.
   */
  lemma {:induction false} SpellPrepend(n: nat, width: nat)
    ensures Spell(n, width + 1) == [(n / Pow10(width)) % 10] + Spell(n, width)
    decreases width
  {
    if width > 0 {
      SpellPrepend(n / 10, width - 1);
      DivDiv(n, 10, Pow10(width - 1));
    }
  }

  lemma {:induction false} CanonicalValue(n: nat)
    ensures Value(Canonical(n)) == n
    decreases n
  {
    if n >= 10 {
      CanonicalValue(n / 10);
      var c := Canonical(n);
      assert c[..|c| - 1] == Canonical(n / 10);
    } else {
      assert [n][..0] == [];
    }
  }

  /** A spelling without a leading zero is the canonical one. */
  lemma {:induction false} CanonicalUnique(ds: seq<nat>)
    requires |ds| >= 1 && AllDigits(ds) && ds[0] != 0
    ensures Canonical(Value(ds)) == ds
    decreases |ds|
  {
    if |ds| > 1 {
      var p := ds[..|ds| - 1];
      ValueAtLeastLead(p);
      CanonicalUnique(p);
      assert Value(ds) / 10 == Value(p) && Value(ds) % 10 == ds[|ds| - 1];
      assert ds == p + [ds[|ds| - 1]];
    } else {
      assert ds[..0] == [];
    }
  }

  lemma {:induction false} CanonicalLength(n: nat, k: nat)
    requires k >= 1 && n < Pow10(k)
    ensures |Canonical(n)| <= k
    decreases k
  {
    if n >= 10 {
      CanonicalLength(n / 10, k - 1);
    }
  }

  // ---------------------------------------------------------------------
  // Text
  // ---------------------------------------------------------------------

  /** What `StringBuilder.Append(uint)` writes for a value below ten. */
  function DigitChar(d: nat): char
    requires d < 10
  {
    ('0' as int + d) as char
  }

  function Chars(ds: seq<nat>): (s: string)
    requires AllDigits(ds)
    ensures |s| == |ds|
  {
    if |ds| == 0 then "" else [DigitChar(ds[0])] + Chars(ds[1..])
  }

  predicate IsDigitChar(c: char) {
    '0' <= c <= '9'
  }

  predicate IsDigitText(s: string) {
    forall i :: 0 <= i < |s| ==> IsDigitChar(s[i])
  }

  /** The digit values of a digit text: the inverse of `Chars`. */
  function DigitsOf(s: string): (ds: seq<nat>)
    requires IsDigitText(s)
    ensures |ds| == |s| && AllDigits(ds)
  {
    if |s| == 0 then [] else [(s[0] as int - '0' as int) as nat] + DigitsOf(s[1..])
  }

  /** The decimal text of a natural number, without leading zeros. */
  function NatToString(n: nat): string {
    Chars(Canonical(n))
  }

  /** What `StringBuilder.Append(int)` writes under the invariant culture. */
  function IntToString(i: int): string {
    if i < 0 then "-" + NatToString(-i) else NatToString(i)
  }

  function ParseNat(s: string): Option<nat> {
    if |s| > 0 && IsDigitText(s) then Some(Value(DigitsOf(s))) else None
  }

  /** Reads an optionally negative decimal integer. */
  function ParseInt(s: string): Option<int> {
    if |s| > 0 && s[0] == '-' then
      match ParseNat(s[1..])
      case Some(n) => var m: int := n; Some(-m)
      case None => None
    else
      match ParseNat(s)
      case Some(n) => Some(n)
      case None => None
  }

  lemma {:induction false} CharsIndex(ds: seq<nat>, i: nat)
    requires AllDigits(ds) && i < |ds|
    ensures Chars(ds)[i] == DigitChar(ds[i])
    decreases i
  {
    if i > 0 {
      CharsIndex(ds[1..], i - 1);
    }
  }

  lemma {:induction false} CharsRoundTrip(ds: seq<nat>)
    requires AllDigits(ds)
    ensures IsDigitText(Chars(ds)) && DigitsOf(Chars(ds)) == ds
    decreases |ds|
  {
    CharsAreDigits(ds);
    if |ds| > 0 {
      CharsRoundTrip(ds[1..]);
      assert Chars(ds)[1..] == Chars(ds[1..]);
      assert [ds[0]] + ds[1..] == ds;
    }
  }

  lemma {:induction false} CharsAppend(a: seq<nat>, b: seq<nat>)
    requires AllDigits(a) && AllDigits(b)
    ensures AllDigits(a + b) && Chars(a + b) == Chars(a) + Chars(b)
    decreases |a|
  {
    if |a| == 0 {
      assert a + b == b;
    } else {
      var ab := a + b;
      assert ab[0] == a[0] && ab[1..] == a[1..] + b;
      CharsAppend(a[1..], b);
      assert Chars(ab) == [DigitChar(a[0])] + Chars(a[1..]) + Chars(b);
    }
  }

  /** Digit text contains neither a sign, a separator nor an exponent mark. */
  lemma CharsAreDigits(ds: seq<nat>)
    requires AllDigits(ds)
    ensures IsDigitText(Chars(ds))
    ensures '-' !in Chars(ds) && '.' !in Chars(ds) && 'E' !in Chars(ds)
  {
    forall i | 0 <= i < |ds|
      ensures IsDigitChar(Chars(ds)[i])
    {
      CharsIndex(ds, i);
    }
  }

  /** The text of an int is never empty and starts with `-` or a digit, never with `+`. */
  lemma IntToStringLead(i: int)
    ensures |IntToString(i)| >= 1
    ensures IntToString(i)[0] == '-' <==> i < 0
    ensures i >= 0 ==> IsDigitChar(IntToString(i)[0])
    ensures i > 0 ==> IntToString(i)[0] != '0'
    ensures i < 0 ==> |IntToString(i)| >= 2 && IntToString(i)[1] != '0'
  {
    var n: nat := if i < 0 then -i else i;
    CharsIndex(Canonical(n), 0);
    if i < 0 {
      assert IntToString(i)[1] == NatToString(n)[0];
    }
  }

  /** `ParseInt` inverts `IntToString`: the text of an int names that int. */
  lemma IntToStringRoundTrip(i: int)
    ensures ParseInt(IntToString(i)) == Some(i)
    ensures 'E' !in IntToString(i) && '.' !in IntToString(i)
  {
    var n: nat := if i < 0 then -i else i;
    var c := Canonical(n);
    CharsRoundTrip(c);
    CharsAreDigits(c);
    CanonicalValue(n);
    if i < 0 {
      assert IntToString(i)[1..] == Chars(c);
    } else {
      assert IsDigitChar(Chars(c)[0]);
    }
  }
}
