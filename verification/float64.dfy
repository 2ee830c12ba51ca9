/** The two length fields of the nexe footer are 8-byte little-endian IEEE-754
    binary64 values that the unpacker turns into byte counts with Rust's
    `f64 as usize` cast. That cast saturates: NaN and every negative value give
    0, a value of 2^64 or more (and +infinity) gives usize::MAX, and anything in
    between is truncated toward zero. A 64-bit `usize` is assumed throughout.
    The decoding here is exact integer arithmetic on the bit fields. */
module Float64 {

  import opened Bytes

  const TWO_48: nat := 0x1_0000_0000_0000
  const TWO_52: nat := 0x10_0000_0000_0000
  const TWO_53: nat := 0x20_0000_0000_0000
  const USIZE_MAX: nat := 0xFFFF_FFFF_FFFF_FFFF

  /** The biased exponent of +-infinity and NaN, and the exponent at which the
      53-bit significand stands for an integer with no fractional part. */
  const EXP_SPECIAL: nat := 2047
  const EXP_INTEGRAL: nat := 1075

  function Pow2(k: nat): (r: nat)
    ensures r >= 1
  {
    if k == 0 then 1 else 2 * Pow2(k - 1)
  }

  lemma {:induction false} Pow2Add(a: nat, b: nat)
    ensures Pow2(a + b) == Pow2(a) * Pow2(b)
  {
    if a > 0 {
      Pow2Add(a - 1, b);
      assert Pow2(a + b) == 2 * Pow2(a - 1 + b);
    }
  }

  lemma {:induction false} Pow2Monotone(a: nat, b: nat)
    requires a <= b
    ensures Pow2(a) <= Pow2(b)
  {
    if a < b {
      Pow2Monotone(a, b - 1);
    }
  }

  lemma Pow2Constants()
    ensures Pow2(8) == 256 && Pow2(11) == 2048
    ensures Pow2(48) == TWO_48 && Pow2(52) == TWO_52 && Pow2(53) == TWO_53
  {
    Pow2Byte();
    Pow2Eleven();
    Pow2FortyEight();
    Pow2FiftyThree();
  }

  lemma Pow2Byte()
    ensures Pow2(4) == 16 && Pow2(8) == 256
  {
    assert Pow2(2) == 4;
    assert Pow2(4) == 16 by { Pow2Add(2, 2); }
    Pow2Add(4, 4);
  }

  lemma Pow2Eleven()
    ensures Pow2(11) == 2048
  {
    Pow2Byte();
    assert Pow2(3) == 8;
    Pow2Add(8, 3);
  }

  lemma Pow2Sixteen()
    ensures Pow2(16) == 0x1_0000
  {
    Pow2Byte();
    Pow2Add(8, 8);
  }

  lemma Pow2ThirtyTwo()
    ensures Pow2(32) == 0x1_0000_0000
  {
    Pow2Sixteen();
    Pow2Add(16, 16);
  }

  lemma Pow2FortyEight()
    ensures Pow2(48) == TWO_48
  {
    Pow2Sixteen();
    Pow2ThirtyTwo();
    Pow2Add(32, 16);
  }

  lemma Pow2FiftyThree()
    ensures Pow2(52) == TWO_52 && Pow2(53) == TWO_53
  {
    Pow2Byte();
    Pow2FortyEight();
    Pow2Add(48, 4);
    Pow2Add(52, 1);
  }

  /** The unsigned integer whose little-endian bytes are `b`. */
  function LittleEndian(b: seq<byte>): nat
  {
    if b == [] then 0 else b[0] + 256 * LittleEndian(b[1..])
  }

  /** The `n` low-order bytes of `x`, least significant first. */
  function ToLittleEndian(x: nat, n: nat): (b: seq<byte>)
    ensures |b| == n
  {
    if n == 0 then [] else [x % 256] + ToLittleEndian(x / 256, n - 1)
  }

  lemma {:induction false} LittleEndianBound(b: seq<byte>)
    ensures LittleEndian(b) < Pow2(8 * |b|)
  {
    if b != [] {
      LittleEndianBound(b[1..]);
      Pow2Add(8, 8 * (|b| - 1));
      Pow2Constants();
    }
  }

  lemma {:induction false} LittleEndianRoundTrip(x: nat, n: nat)
    requires x < Pow2(8 * n)
    ensures LittleEndian(ToLittleEndian(x, n)) == x
  {
    if n > 0 {
      Pow2Add(8, 8 * (n - 1));
      Pow2Constants();
      LittleEndianRoundTrip(x / 256, n - 1);
      var b := ToLittleEndian(x, n);
      assert b[1..] == ToLittleEndian(x / 256, n - 1);
    } else {
      assert Pow2(0) == 1;
    }
  }

  /** The sign bit, biased exponent and fraction of the binary64 value stored
      little-endian in `b`: bit 63, bits 62..52 and bits 51..0. */
  function Sign(b: seq<byte>): nat
    requires |b| == 8
  {
    b[7] as int / 128
  }

  function Exponent(b: seq<byte>): nat
    requires |b| == 8
  {
    (b[7] as int % 128) * 16 + b[6] as int / 16
  }

  function Fraction(b: seq<byte>): nat
    requires |b| == 8
  {
    (b[6] as int % 16) * TWO_48 + LittleEndian(b[..6])
  }

  lemma FieldBounds(b: seq<byte>)
    requires |b| == 8
    ensures Sign(b) <= 1 && Exponent(b) <= EXP_SPECIAL && Fraction(b) < TWO_52
  {
    LittleEndianBound(b[..6]);
    Pow2Constants();
  }

  /** `f64::from_le_bytes(b) as usize`. */
  function ToUsize(b: seq<byte>): (r: nat)
    requires |b| == 8
    ensures r <= USIZE_MAX
  {
    var exponent, fraction := Exponent(b), Fraction(b);
    if exponent == EXP_SPECIAL then
      // +infinity saturates; NaN and -infinity give 0
      if fraction == 0 && Sign(b) == 0 then USIZE_MAX else 0
    else if Sign(b) == 1 then 0
    else if exponent == 0 then 0
    else if exponent >= EXP_INTEGRAL + 12 then USIZE_MAX
    else
      FieldBounds(b);
      ScaledInRange(exponent, fraction);
      Scaled(TWO_52 + fraction, exponent - EXP_INTEGRAL)
  }

  /** `x * 2^shift` truncated toward zero. */
  function Scaled(x: nat, shift: int): nat
  {
    if shift >= 0 then
      MulNonNegative(x, Pow2(shift));
      x * Pow2(shift)
    else
      DivNonNegative(x, Pow2(-shift));
      x / Pow2(-shift)
  }

  lemma MulNonNegative(a: nat, b: nat)
    ensures a * b >= 0
  {
  }

  lemma DivNonNegative(a: nat, d: nat)
    requires d >= 1
    ensures a / d >= 0
  {
  }

  /** Every decoded length is a valid `usize`: the saturating branches give
      the same value that the unsaturated arithmetic would give whenever it
      fits in 64 bits. */
  lemma ToUsizeInRange(b: seq<byte>)
    requires |b| == 8
    ensures ToUsize(b) <= USIZE_MAX
    ensures Exponent(b) >= EXP_INTEGRAL + 12 && Exponent(b) < EXP_SPECIAL && Sign(b) == 0 ==>
              (TWO_52 + Fraction(b)) * Pow2(Exponent(b) - EXP_INTEGRAL) > USIZE_MAX
  {
    FieldBounds(b);
    if Exponent(b) >= EXP_INTEGRAL + 12 {
      BeyondUsize(TWO_52 + Fraction(b), Exponent(b) - EXP_INTEGRAL);
    }
  }

  /** A normal value below 2^64 scales its significand to at most `usize::MAX`. */
  lemma ScaledInRange(exponent: nat, fraction: nat)
    requires 1 <= exponent < EXP_INTEGRAL + 12 && fraction < TWO_52
    ensures Scaled(TWO_52 + fraction, exponent - EXP_INTEGRAL) <= USIZE_MAX
  {
    var x := TWO_52 + fraction;
    Pow2Constants();
    if exponent >= EXP_INTEGRAL {
      WithinUsize(x, exponent - EXP_INTEGRAL);
    } else {
      DivAtMost(x, Pow2(EXP_INTEGRAL - exponent));
    }
  }

  /** A significand shifted left by 12 or more bits no longer fits in 64. */
  lemma BeyondUsize(x: nat, shift: nat)
    requires TWO_52 <= x && 12 <= shift
    ensures x * Pow2(shift) > USIZE_MAX
  {
    Pow2Constants();
    Pow2Monotone(12, shift);
    Pow2Add(52, 12);
    MulMonotone(TWO_52, Pow2(12), x, Pow2(shift));
  }

  /** A significand shifted left by at most 11 bits still fits in 64. */
  lemma WithinUsize(x: nat, shift: nat)
    requires x < TWO_53 && shift <= 11
    ensures x * Pow2(shift) <= USIZE_MAX
  {
    Pow2Constants();
    Pow2Monotone(shift, 11);
    MulMonotone(x, Pow2(shift), TWO_53 - 1, 2048);
  }

  lemma MulMonotone(a: nat, b: nat, c: nat, d: nat)
    requires a <= c && b <= d
    ensures a * b <= c * d
  {
    assert a * b <= c * b;
  }

  lemma DivAtMost(x: nat, d: nat)
    requires d >= 1
    ensures x / d <= x
  {
  }

  /** Floor of the base-2 logarithm. */
  function Log2(n: nat): (k: nat)
    requires n >= 1
    ensures Pow2(k) <= n < Pow2(k + 1)
  {
    if n == 1 then 0 else 1 + Log2(n / 2)
  }

  /** The 8 bytes of a binary64 value with sign 0 and the given fields. */
  function Pack(exponent: nat, fraction: nat): (b: seq<byte>)
    requires exponent < 2048 && fraction < TWO_52
    ensures |b| == 8
    ensures Sign(b) == 0 && Exponent(b) == exponent && Fraction(b) == fraction
  {
    SplitFields(exponent, fraction);
    Pow2Constants();
    LittleEndianRoundTrip(fraction % TWO_48, 6);
    var b := ToLittleEndian(fraction % TWO_48, 6)
           + [(exponent % 16) * 16 + fraction / TWO_48, exponent / 16];
    assert b[..6] == ToLittleEndian(fraction % TWO_48, 6);
    b
  }

  lemma SplitFields(exponent: nat, fraction: nat)
    requires exponent < 2048 && fraction < TWO_52
    ensures fraction / TWO_48 < 16 && exponent / 16 < 128
    ensures ((exponent % 16) * 16 + fraction / TWO_48) / 16 == exponent % 16
    ensures ((exponent % 16) * 16 + fraction / TWO_48) % 16 == fraction / TWO_48
    ensures (exponent / 16 % 128) * 16 + exponent % 16 == exponent
    ensures (fraction / TWO_48) * TWO_48 + fraction % TWO_48 == fraction
  {
  }

  /** The binary64 encoding of a whole number below 2^53 (every such number is
      exactly representable), as the packager writes the two length fields. */
  function FromUsize(n: nat): (b: seq<byte>)
    requires n < TWO_53
    ensures |b| == 8
  {
    if n == 0 then Pack(0, 0)
    else
      NormalForm(n);
      Pack(1023 + Log2(n), Scaled(n - Pow2(Log2(n)), 52 - Log2(n)))
  }

  /** A whole number `n` in 1..2^53-1 is `1.f * 2^k` with `k = Log2(n)` and a
      52-bit fraction `f`; `f` followed by the implicit leading one is `n`
      shifted left by `52 - k`. */
  lemma NormalForm(n: nat)
    requires 1 <= n < TWO_53
    ensures Log2(n) <= 52
    ensures Scaled(n - Pow2(Log2(n)), 52 - Log2(n)) < TWO_52
    ensures TWO_52 + Scaled(n - Pow2(Log2(n)), 52 - Log2(n)) == n * Pow2(52 - Log2(n))
  {
    Pow2Constants();
    var k := Log2(n);
    Log2Below(n, 53);
    Pow2Add(k, 52 - k);
    assert Pow2(k + 1) == 2 * Pow2(k);
    FractionArithmetic(n, Pow2(k), Pow2(52 - k));
  }

  lemma FractionArithmetic(n: int, a: int, p: int)
    requires 1 <= a <= n < 2 * a && p >= 1 && a * p == TWO_52
    ensures 0 <= (n - a) * p < TWO_52
    ensures TWO_52 + (n - a) * p == n * p
  {
    MulMonotone(n - a, p, a - 1, p);
    assert (a - 1) * p == a * p - p;
    assert (n - a) * p == n * p - a * p;
  }

  lemma {:induction false} Log2Below(n: nat, j: nat)
    requires 1 <= n < Pow2(j)
    ensures Log2(n) < j
  {
    if Log2(n) >= j {
      Pow2Monotone(j, Log2(n));
    }
  }

  /** The round trip the footer relies on: the cast recovers every length the
      packager can encode exactly. */
  lemma FromUsizeRoundTrip(n: nat)
    requires n < TWO_53
    ensures ToUsize(FromUsize(n)) == n
  {
    if n > 0 {
      var k, f := EncodedFields(n);
      PackedValue(1023 + k, f);
      ScaledBack(n, k);
    }
  }

  /** The fields `FromUsize` packs for a positive `n`. */
  lemma EncodedFields(n: nat) returns (k: nat, f: nat)
    requires 1 <= n < TWO_53
    ensures k == Log2(n) && k <= 52 && f == Scaled(n - Pow2(k), 52 - k) && f < TWO_52
    ensures TWO_52 + f == n * Pow2(52 - k)
    ensures FromUsize(n) == Pack(1023 + k, f)
  {
    NormalForm(n);
    k := Log2(n);
    f := Scaled(n - Pow2(k), 52 - k);
  }

  lemma PackedValue(exponent: nat, fraction: nat)
    requires 1 <= exponent < EXP_INTEGRAL + 12 && fraction < TWO_52
    ensures ToUsize(Pack(exponent, fraction)) == Scaled(TWO_52 + fraction, exponent - EXP_INTEGRAL)
  {
    FiniteValue(Pack(exponent, fraction), exponent, fraction);
  }

  lemma ScaledBack(n: nat, k: nat)
    requires 1 <= n < TWO_53 && k == Log2(n) && k <= 52
    requires TWO_52 + Scaled(n - Pow2(k), 52 - k) == n * Pow2(52 - k)
    ensures Scaled(TWO_52 + Scaled(n - Pow2(k), 52 - k), 1023 + k - EXP_INTEGRAL) == n
  {
    var p := Pow2(52 - k);
    var x := n * p;
    if k < 52 {
      assert Scaled(x, k - 52) == x / p;
      MulDivCancel(n, p);
    } else {
      assert p == 1;
      assert Scaled(x, 0) == x * 1;
    }
  }

  /** The cast of a positive value below 2^64: its significand scaled by its
      unbiased exponent. */
  lemma FiniteValue(b: seq<byte>, exponent: nat, fraction: nat)
    requires |b| == 8 && Sign(b) == 0 && 1 <= exponent < EXP_INTEGRAL + 12
    requires Exponent(b) == exponent && Fraction(b) == fraction
    ensures ToUsize(b) == Scaled(TWO_52 + fraction, exponent - EXP_INTEGRAL)
  {
  }

  lemma MulDivCancel(n: nat, p: nat)
    requires p >= 1
    ensures (n * p) / p == n
  {
    var q := (n * p) / p;
    MulSign(n - q, p);
    assert (n - q) * p == n * p - q * p;
  }

  lemma MulSign(m: int, p: int)
    requires p >= 1
    ensures m >= 1 ==> m * p >= p
    ensures m <= -1 ==> m * p <= -p
  {
    if m >= 1 {
      assert m * p == (m - 1) * p + p;
    } else if m <= -1 {
      assert m * p == (m + 1) * p - p;
    }
  }

  /** The last byte of an encoded length is at most 0x43: the biased exponent
      of a whole number below 2^53 is at most 1075. */
  lemma FromUsizeHighByte(n: nat)
    requires n < TWO_53
    ensures FromUsize(n)[7] <= 0x43
  {
    if n > 0 {
      Pow2Constants();
      Log2Below(n, 53);
    }
  }
}
