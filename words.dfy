/**
 * 32-bit register words and the bit arithmetic the decoder performs on them.
 *
 * A data-register read (`readl`) yields an unsigned 32-bit word, which the
 * source stores into a plain signed `int` before shifting and masking it.
 * This module models both readings: the unsigned field extraction the
 * hardware documentation describes, and the C computation as written
 * (two's-complement reinterpretation, arithmetic `>>`, `& (2^m - 1)`),
 * and proves that the two agree on every word.
 */
module Words {

  /** Number of distinct 32-bit words. */
  const WordModulus: int := 0x1_0000_0000

  /** A value returned by one 32-bit data-register read. */
  type Word = w: int | 0 <= w < 0x1_0000_0000

  function Pow2(k: nat): (r: nat)
    ensures r >= 1
  {
    if k == 0 then 1 else 2 * Pow2(k - 1)
  }

  lemma {:induction false} Pow2Add(a: nat, b: nat)
    ensures Pow2(a + b) == Pow2(a) * Pow2(b)
  {
    if a > 0 {
      Pow2Add(a - 1, b);
      assert Pow2(a + b) == 2 * Pow2(a - 1 + b);
    }
  }

  lemma Pow2Of32()
    ensures Pow2(32) == WordModulus
  {
    assert Pow2(2) == 4;
    Pow2Add(2, 2);
    Pow2Add(4, 4);
    Pow2Add(8, 8);
    Pow2Add(16, 16);
  }

  /** The powers of two that the decoder's shift amounts and masks use. */
  lemma Pow2Values()
    ensures Pow2(1) == 2 && Pow2(2) == 4 && Pow2(4) == 16 && Pow2(8) == 256
    ensures Pow2(11) == 0x800 && Pow2(12) == 0x1000 && Pow2(13) == 0x2000
    ensures Pow2(14) == 0x4000 && Pow2(15) == 0x8000 && Pow2(16) == 0x1_0000
    ensures Pow2(22) == 0x40_0000
  {
    assert Pow2(2) == 4;
    assert Pow2(3) == 8;
    assert Pow2(4) == 16;
    assert Pow2(5) == 32;
    assert Pow2(6) == 64;
    assert Pow2(7) == 128;
    assert Pow2(8) == 256;
    assert Pow2(9) == 512;
    assert Pow2(10) == 1024;
    assert Pow2(11) == 0x800;
    assert Pow2(12) == 0x1000;
    assert Pow2(13) == 0x2000;
    assert Pow2(14) == 0x4000;
    assert Pow2(15) == 0x8000;
    assert Pow2(16) == 0x1_0000;
    assert Pow2(17) == 0x2_0000;
    assert Pow2(18) == 0x4_0000;
    assert Pow2(19) == 0x8_0000;
    assert Pow2(20) == 0x10_0000;
    assert Pow2(21) == 0x20_0000;
  }

  /** Unsigned extraction of the `width`-bit field starting at bit `lo`. */
  function Bits(w: int, lo: nat, width: nat): (r: int)
    ensures 0 <= r < Pow2(width)
  {
    (w / Pow2(lo)) % Pow2(width)
  }

  /** The value of `int x = w;` for a 32-bit unsigned `w` (two's complement). */
  function ToCInt(w: Word): (r: int)
    ensures -0x8000_0000 <= r < 0x8000_0000
    ensures r % WordModulus == w
  {
    if w < 0x8000_0000 then w else w - WordModulus
  }

  /**
   * `(x >> k) & (2^m - 1)` on a signed C `int` holding `ToCInt(w)`: GCC's
   * `>>` on a negative `int` is an arithmetic shift, i.e. floor division by
   * 2^k (Dafny's `/` on a positive divisor), and `&` with a mask of m low
   * one-bits keeps the residue modulo 2^m (Dafny's `%` is never negative).
   */
  function CShiftMask(w: Word, k: nat, m: nat): (r: int)
    ensures 0 <= r < Pow2(m)
  {
    (ToCInt(w) / Pow2(k)) % Pow2(m)
  }

  lemma {:induction false} MulAtLeast(a: int, d: int)
    requires a >= 1 && d > 0
    ensures a * d >= d
  {
    if a > 1 {
      MulAtLeast(a - 1, d);
      assert a * d == (a - 1) * d + d;
    }
  }

  lemma DivUnique(y: int, d: int, q: int, r: int)
    requires d > 0 && 0 <= r < d && y == q * d + r
    ensures y / d == q && y % d == r
  {
    var q', r' := y / d, y % d;
    assert y == q' * d + r';
    assert (q - q') * d == r' - r;
    if q' < q {
      MulAtLeast(q - q', d);
    } else if q' > q {
      assert (q' - q) * d == r - r';
      MulAtLeast(q' - q, d);
    }
  }

  lemma MulDistrib(b: int, x: int, y: int)
    ensures b * (x + y) == b * x + b * y
  {
  }

  lemma MulRotate(b: int, x: int, p: int)
    ensures b * (x * p) == x * (b * p)
  {
  }

  lemma {:induction false} MulMonotone(a: int, b: int, c: int)
    requires a >= 0 && b <= c
    ensures a * b <= a * c
  {
    if a > 0 {
      MulMonotone(a - 1, b, c);
      assert a * b == (a - 1) * b + b;
      assert a * c == (a - 1) * c + c;
    }
  }

  /** Facts about Euclidean division by a base of at least 2. */
  lemma DivFacts(n: nat, b: int)
    requires b >= 2
    ensures n == b * (n / b) + n % b && 0 <= n % b < b
    ensures n < b ==> n / b == 0 && n % b == n
    ensures n >= b ==> 1 <= n / b < n
  {
    var q, r := n / b, n % b;
    assert n == q * b + r;
    if n < b {
      DivUnique(n, b, 0, n);
    } else {
      if q <= 0 {
        MulMonotone(b, q, 0);
        assert false;
      }
      MulMonotone(q, 2, b);
      assert q * b <= n;
    }
  }

  /**
   * Reading the `m`-bit field at divisor `p` = 2^k of a word laid out as
   * (q * mod + f) * p + r, with 0 <= f < mod and 0 <= r < p, gives f.
   */
  lemma FieldOfLayout(w: int, q: int, f: int, r: int, p: int, mod: int)
    requires p > 0 && mod > 0 && 0 <= f < mod && 0 <= r < p
    requires w == (q * mod + f) * p + r
    ensures (w / p) % mod == f
  {
    DivUnique(w, p, q * mod + f, r);
    DivUnique(q * mod + f, mod, q, f);
  }

  /** Keeping the low bits of the low bits: (x mod a*b) mod a == x mod a. */
  lemma ModOfMod(x: int, a: int, b: int)
    requires a > 0 && b > 0
    ensures (x % (a * b)) % a == x % a
  {
    MulAtLeast(b, a);
    assert a * b > 0;
    var q, r := x / (a * b), x % (a * b);
    var q2, r2 := r / a, r % a;
    assert x == (a * b) * q + r;
    assert r == a * q2 + r2;
    assert (a * b) * q == a * (b * q);
    assert x == (b * q + q2) * a + r2;
    DivUnique(x, a, b * q + q2, r2);
  }

  lemma DivSubMultiple(x: int, q: int, d: int)
    requires d > 0
    ensures (x - q * d) / d == x / d - q
  {
    var a, b := x / d, x % d;
    assert x - q * d == (a - q) * d + b;
    DivUnique(x - q * d, d, a - q, b);
  }

  lemma ModSubMultiple(x: int, q: int, d: int)
    requires d > 0
    ensures (x - q * d) % d == x % d
  {
    var a, b := x / d, x % d;
    assert x - q * d == (a - q) * d + b;
    DivUnique(x - q * d, d, a - q, b);
  }

  /** Subtracting a multiple of 2^(k+m) does not change the field at bits k..k+m-1. */
  lemma ShiftMaskOffset(x: int, pk: int, pm: int, c: int)
    requires pk > 0 && pm > 0
    ensures ((x - c * (pm * pk)) / pk) % pm == (x / pk) % pm
  {
    assert c * (pm * pk) == (c * pm) * pk;
    DivSubMultiple(x, c * pm, pk);
    ModSubMultiple(x / pk, c, pm);
  }

  /**
   * The source's signed-int shifts give the unsigned field for every word,
   * whenever the field lies inside the 32 bits (true of all nine fields).
   */
  lemma SignedExtractionAgrees(w: Word, k: nat, m: nat)
    requires k + m <= 32
    ensures CShiftMask(w, k, m) == Bits(w, k, m)
  {
    if w >= 0x8000_0000 {
      var rest: nat := 32 - k - m;
      var pk, pm, c := Pow2(k), Pow2(m), Pow2(rest);
      assert WordModulus == c * (pm * pk) by {
        Pow2Of32();
        Pow2Add(m, k);
        Pow2Add(rest, m + k);
      }
      ShiftMaskOffset(w, pk, pm, c);
    }
  }
}
