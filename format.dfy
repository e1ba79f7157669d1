/**
 * The fixed numeric conversions of the source's format strings: `%x`
 * (lowercase hexadecimal, no prefix), `%08x` and `%02x` (the same,
 * zero-padded to a width), `%d` on a non-negative value and `%02d`.
 *
 * Each rendering has a partner, `Value`, that reads a digit string back;
 * the round-trip lemmas below show that no rendering loses information.
 */
module Format {

  import opened Words

  /** The character for digit `d`: '0'..'9', then lowercase 'a'..'f'. */
  function DigitChar(d: nat): (c: char)
    requires d < 16
    ensures IsDigit(c, 16)
  {
    if d < 10 then ('0' as int + d) as char else ('a' as int + d - 10) as char
  }

  /** The digit a character stands for (meaningful only for digit characters). */
  function DigitValue(c: char): nat
  {
    if '0' <= c <= '9' then c as int - '0' as int
    else if 'a' <= c <= 'f' then c as int - 'a' as int + 10
    else 0
  }

  predicate IsDigit(c: char, base: nat)
  {
    ('0' <= c <= '9' || 'a' <= c <= 'f') && DigitValue(c) < base
  }

  predicate AllDigits(s: string, base: nat)
  {
    forall i :: 0 <= i < |s| ==> IsDigit(s[i], base)
  }

  lemma DigitCharValue(d: nat)
    requires d < 16
    ensures DigitValue(DigitChar(d)) == d
  {
  }

  function Power(base: nat, k: nat): (r: nat)
    requires base >= 1
    ensures r >= 1
  {
    if k == 0 then 1 else base * Power(base, k - 1)
  }

  /**
   * The shortest digit string of `n` in `base`: what `%x` (base 16) and
   * `%d` (base 10, non-negative argument) print. It is never empty, is made
   * only of digits of `base`, and has no leading zero unless `n` is 0.
   */
  function Digits(n: nat, base: nat): (s: string)
    requires 2 <= base <= 16
    ensures |s| >= 1 && AllDigits(s, base)
    ensures s[0] == '0' <==> n == 0
    decreases n
  {
    DivFacts(n, base);
    if n < base then [DigitChar(n)]
    else Digits(n / base, base) + [DigitChar(n % base)]
  }

  /** `%<width>x` / `%0<width>d`: the digit string left-padded with '0' up to `width`. */
  function Padded(n: nat, base: nat, width: nat): (s: string)
    requires 2 <= base <= 16
    ensures |s| == if |Digits(n, base)| < width then width else |Digits(n, base)|
    ensures AllDigits(s, base)
  {
    var d := Digits(n, base);
    if |d| < width then Zeros(width - |d|) + d else d
  }

  function Zeros(k: nat): (s: string)
    ensures |s| == k && forall i :: 0 <= i < k ==> s[i] == '0'
  {
    if k == 0 then [] else ['0'] + Zeros(k - 1)
  }

  /** `%x` */
  function Hex(n: nat): string { Digits(n, 16) }

  /** `%0<width>x` */
  function HexPadded(n: nat, width: nat): string { Padded(n, 16, width) }

  /** `%d` of a non-negative value */
  function Dec(n: nat): string { Digits(n, 10) }

  /** `%0<width>d` of a non-negative value */
  function DecPadded(n: nat, width: nat): string { Padded(n, 10, width) }

  /** The number a digit string denotes in `base` (most significant digit first). */
  function Value(s: string, base: nat): nat
  {
    if s == [] then 0 else base * Value(s[..|s| - 1], base) + DigitValue(s[|s| - 1])
  }

  lemma {:induction false} DigitsRoundTrip(n: nat, base: nat)
    requires 2 <= base <= 16
    ensures Value(Digits(n, base), base) == n
    decreases n
  {
    var s := Digits(n, base);
    DivFacts(n, base);
    if n < base {
      assert s[..0] == [];
      DigitCharValue(n);
    } else {
      DigitsRoundTrip(n / base, base);
      assert s[..|s| - 1] == Digits(n / base, base);
      DigitCharValue(n % base);
    }
  }

  lemma {:induction false} ValueConcat(a: string, b: string, base: nat)
    requires base >= 1
    ensures Value(a + b, base) == Value(a, base) * Power(base, |b|) + Value(b, base)
    decreases |b|
  {
    if b == [] {
      assert a + b == a;
    } else {
      var b' := b[..|b| - 1];
      ValueConcat(a, b', base);
      assert (a + b)[..|a + b| - 1] == a + b';
      assert b[..|b| - 1] == b';
      calc {
        Value(a + b, base);
        base * Value(a + b', base) + DigitValue(b[|b| - 1]);
        base * (Value(a, base) * Power(base, |b'|) + Value(b', base)) + DigitValue(b[|b| - 1]);
        { MulDistrib(base, Value(a, base) * Power(base, |b'|), Value(b', base));
          MulRotate(base, Value(a, base), Power(base, |b'|)); }
        Value(a, base) * (base * Power(base, |b'|)) + (base * Value(b', base) + DigitValue(b[|b| - 1]));
        Value(a, base) * Power(base, |b|) + Value(b, base);
      }
    }
  }

  lemma {:induction false} ZerosValue(k: nat, base: nat)
    ensures Value(Zeros(k), base) == 0
  {
    if k > 0 {
      var z := Zeros(k);
      assert z[..k - 1] == Zeros(k - 1);
      ZerosValue(k - 1, base);
    }
  }

  /** Zero padding does not change the value read back. */
  lemma PaddedRoundTrip(n: nat, base: nat, width: nat)
    requires 2 <= base <= 16
    ensures Value(Padded(n, base, width), base) == n
  {
    var d := Digits(n, base);
    DigitsRoundTrip(n, base);
    if |d| < width {
      var z := Zeros(width - |d|);
      ValueConcat(z, d, base);
      ZerosValue(width - |d|, base);
      assert Value(z + d, base) == 0 * Power(base, |d|) + n;
    }
  }

  /** A value below base^w needs at most w digits. */
  lemma {:induction false} DigitsLength(n: nat, base: nat, w: nat)
    requires 2 <= base <= 16 && w >= 1 && n < Power(base, w)
    ensures |Digits(n, base)| <= w
    decreases n
  {
    DivFacts(n, base);
    if n >= base {
      assert w >= 2;
      DivBelow(n, base, Power(base, w - 1));
      DigitsLength(n / base, base, w - 1);
    }
  }

  lemma DivBelow(n: nat, b: nat, p: nat)
    requires b >= 1 && n < b * p
    ensures n / b < p
  {
    var q := n / b;
    assert n == b * q + n % b;
    if q >= p {
      MulMonotone(b, p, q);
    }
  }

  /** Digit renderings are injective: distinct values never print alike. */
  lemma DigitsInjective(a: nat, b: nat, base: nat)
    requires 2 <= base <= 16 && Digits(a, base) == Digits(b, base)
    ensures a == b
  {
    DigitsRoundTrip(a, base);
    DigitsRoundTrip(b, base);
  }

  /** `%d` of a value below 100: one digit, or the tens digit then the units digit. */
  lemma DecBelow100(n: nat)
    requires n < 100
    ensures Dec(n) == if n < 10 then [DigitChar(n)] else [DigitChar(n / 10), DigitChar(n % 10)]
  {
    DivFacts(n, 10);
    if n >= 10 {
      DivBelow(n, 10, 10);
      DivFacts(n / 10, 10);
      assert Dec(n) == Digits(n / 10, 10) + [DigitChar(n % 10)];
    }
  }

  lemma Power16Of8()
    ensures Power(16, 8) == 0x1_0000_0000 && Power(16, 2) == 256 && Power(16, 1) == 16
  {
    assert Power(16, 1) == 16;
    assert Power(16, 2) == 256;
    assert Power(16, 3) == 4096;
    assert Power(16, 4) == 65536;
    assert Power(16, 5) == 0x10_0000;
    assert Power(16, 6) == 0x100_0000;
    assert Power(16, 7) == 0x1000_0000;
  }

  /**
   * `%08x` of a 32-bit word prints exactly eight lowercase hex digits that
   * read back as the word.
   */
  lemma HexWord(n: nat)
    requires n < 0x1_0000_0000
    ensures |HexPadded(n, 8)| == 8 && AllDigits(HexPadded(n, 8), 16)
    ensures Value(HexPadded(n, 8), 16) == n
  {
    Power16Of8();
    DigitsLength(n, 16, 8);
    PaddedRoundTrip(n, 16, 8);
  }
}
