/** The division-free decimal arithmetic of the floating-point formatter: trailing zeros are
    found by multiplying with a modular inverse and rotating, and the divisions by 100, 1000
    and 10^8 are one multiplication and a shift.  Machine words are natural numbers below the
    modulus of their width; every wrap-around is written out. */
module TrailingZeros {
  import opened Arithmetic
  import opened Wrappers

  datatype Width = Bits32 | Bits64

  function Modulus(w: Width): nat {
    match w
    case Bits32 => 0x1_0000_0000
    case Bits64 => 0x1_0000_0000_0000_0000
  }

  /** The inverse of 5 modulo the word size. */
  function Inverse5(w: Width): nat {
    match w
    case Bits32 => 0xcccc_cccd
    case Bits64 => 0xcccc_cccc_cccc_cccd
  }

  /** The inverse of 25 modulo the word size. */
  function Inverse25(w: Width): nat {
    match w
    case Bits32 => 0xc28f_5c29
    case Bits64 => 0x8f5c_28f5_c28f_5c29
  }

  /** `n * 10^k`: the decimal digits of `n` followed by `k` zeros. */
  function AppendZeros(n: nat, k: nat): nat {
    if k == 0 then n else 10 * AppendZeros(n, k - 1)
  }

  /** Unsigned multiplication, truncated to the word. */
  function MulWrap(w: Width, a: nat, b: nat): nat {
    a * b % Modulus(w)
  }

  /** `(n >> r) | (n << (bits - r))` for `d == 2^r`; the formatter rotates by 1 and by 2.
      The two halves occupy disjoint bits, so their union is a sum. */
  function RotateRight(w: Width, n: nat, d: nat): nat
    requires d == 2 || d == 4
  {
    n / d + n % d * (Modulus(w) / d)
  }

  function Quotient100(w: Width, n: nat): nat {
    RotateRight(w, MulWrap(w, n, Inverse25(w)), 4)
  }

  function Quotient10(w: Width, n: nat): nat {
    RotateRight(w, MulWrap(w, n, Inverse5(w)), 2)
  }

  /** Multiplying by an inverse of `c` modulo `m`: multiples of `c` are divided, and multiplying
      back by `c` restores every `n` up to a multiple of `m`. */
  lemma InverseDivides(c: nat, inverse: nat, m: nat, t: nat, j: nat)
    requires 0 < m && c * inverse == 1 + t * m && j < m
    ensures c * j * inverse % m == j
  {
    calc {
      c * j * inverse;
      j * (c * inverse);
      j * (1 + t * m);
      (j * t) * m + j;
    }
    DivModUnique(c * j * inverse, m, j * t, j);
  }

  lemma InverseRestores(c: nat, inverse: nat, m: nat, t: nat, n: nat) returns (z: int)
    requires 0 < m && c * inverse == 1 + t * m
    ensures c * (n * inverse % m) == n + z * m
  {
    var a, r := n * inverse / m, n * inverse % m;
    z := n * t - c * a;
    calc {
      c * r;
      { assert r == n * inverse - a * m; }
      c * (n * inverse - a * m);
      n * (c * inverse) - c * a * m;
      n * (1 + t * m) - c * a * m;
      n + z * m;
    }
  }

  /** A rotation that lands below `modulus / d` rotated zeros, that is, it divided exactly. */
  lemma SmallRotation(w: Width, m: nat, d: nat)
    requires m < Modulus(w) && (d == 2 || d == 4)
    ensures RotateRight(w, m, d) < Modulus(w) / d <==> m % d == 0
    ensures m % d == 0 ==> RotateRight(w, m, d) == m / d
  {
    match w {
      case Bits32 =>
      case Bits64 =>
    }
  }

  /** With `inverse` the inverse of the odd part `c`, a multiple of `c * d` is divided exactly. */
  lemma RotateMultiple(w: Width, c: nat, inverse: nat, t: nat, d: nat, j: nat)
    requires c * inverse == 1 + t * Modulus(w) && (d == 2 || d == 4)
    requires j < Modulus(w) && j % d == 0
    ensures RotateRight(w, MulWrap(w, c * j, inverse), d) == j / d
  {
    InverseDivides(c, inverse, Modulus(w), t, j);
    assert MulWrap(w, c * j, inverse) == j;
    SmallRotation(w, j, d);
  }

  /** Conversely, a small rotated product is the quotient of a multiple of `c * d`. */
  lemma RotateWithin(w: Width, c: nat, inverse: nat, t: nat, d: nat, n: nat, q: nat)
    requires c * inverse == 1 + t * Modulus(w) && (d == 2 || d == 4) && n < Modulus(w)
    requires q == RotateRight(w, MulWrap(w, n, inverse), d)
    requires q < Modulus(w) / d && c * (d * q) < Modulus(w)
    ensures n == c * (d * q)
  {
    var m := MulWrap(w, n, inverse);
    SmallRotation(w, m, d);
    assert m == d * q;
    var z := InverseRestores(c, inverse, Modulus(w), t, n);
    OnlyZeroMultiple(n, c * m, Modulus(w), z);
  }

  lemma OnlyZeroMultiple(a: nat, b: nat, m: nat, z: int)
    requires a < m && b < m && b == a + z * m
    ensures a == b
  {
    var below, above := z <= -1 ==> z * m <= -1 * m, z >= 1 ==> z * m >= m;
    assert below && above;
  }

  function Excess25(w: Width): nat {
    if w == Bits32 then 19 else 14
  }

  lemma InversesAreInverses(w: Width)
    ensures 25 * Inverse25(w) == 1 + Excess25(w) * Modulus(w)
    ensures 5 * Inverse5(w) == 1 + 4 * Modulus(w)
  {
  }

  /** The inverse-and-rotate test decides divisibility by 100, and its value is then the quotient. */
  lemma HundredTest(w: Width, n: nat)
    requires n < Modulus(w)
    ensures Quotient100(w, n) <= (Modulus(w) - 1) / 100 <==> n % 100 == 0
    ensures n % 100 == 0 ==> Quotient100(w, n) == n / 100
  {
    hide RotateRight, MulWrap, Inverse25, Excess25, Quotient100;
    if Quotient100(w, n) <= (Modulus(w) - 1) / 100 {
      SmallQuotient100(w, n);
    }
    if n % 100 == 0 {
      MultipleOf100(w, n);
    }
  }

  lemma SmallQuotient100(w: Width, n: nat)
    requires n < Modulus(w) && Quotient100(w, n) <= (Modulus(w) - 1) / 100
    ensures n == 100 * Quotient100(w, n)
  {
    hide RotateRight, MulWrap, Inverse25, Excess25;
    InversesAreInverses(w);
    RotateWithin(w, 25, Inverse25(w), Excess25(w), 4, n, Quotient100(w, n));
  }

  lemma SplitMultiple(n: nat, c: nat, d: nat)
    requires 0 < c && 0 < d && 0 < c * d && n % (c * d) == 0
    ensures n == c * (n / c) && n / c % d == 0 && n / c / d == n / (c * d)
  {
    var q := n / (c * d);
    assert n == q * (c * d) == (q * d) * c;
    DivModUnique(n, c, q * d, 0);
    DivModUnique(q * d, d, q, 0);
  }

  lemma MultipleOf100(w: Width, n: nat)
    requires n < Modulus(w) && n % 100 == 0
    ensures Quotient100(w, n) == n / 100
  {
    hide RotateRight, MulWrap, Inverse25, Excess25, Modulus;
    InversesAreInverses(w);
    SplitMultiple(n, 25, 4);
    RotateMultiple(w, 25, Inverse25(w), Excess25(w), 4, n / 25);
  }

  /** The inverse-and-rotate test decides divisibility by 10, and its value is then the quotient. */
  lemma TenTest(w: Width, n: nat)
    requires n < Modulus(w)
    ensures Quotient10(w, n) <= (Modulus(w) - 1) / 10 <==> n % 10 == 0
    ensures n % 10 == 0 ==> Quotient10(w, n) == n / 10
  {
    hide Quotient10;
    if Quotient10(w, n) <= (Modulus(w) - 1) / 10 {
      SmallQuotient10(w, n);
    }
    if n % 10 == 0 {
      MultipleOf10(w, n);
    }
  }

  lemma SmallQuotient10(w: Width, n: nat)
    requires n < Modulus(w) && Quotient10(w, n) <= (Modulus(w) - 1) / 10
    ensures n == 10 * Quotient10(w, n)
  {
    hide RotateRight, MulWrap, Inverse5;
    InversesAreInverses(w);
    RotateWithin(w, 5, Inverse5(w), 4, 2, n, Quotient10(w, n));
  }

  lemma MultipleOf10(w: Width, n: nat)
    requires n < Modulus(w) && n % 10 == 0
    ensures Quotient10(w, n) == n / 10
  {
    hide RotateRight, MulWrap, Inverse5, Modulus;
    InversesAreInverses(w);
    SplitMultiple(n, 5, 2);
    RotateMultiple(w, 5, Inverse5(w), 4, 2, n / 5);
  }

  /** `(n, s)` is `n0 * 10^s0` with its trailing zeros moved into the exponent. */
  ghost predicate IsStripped(n0: nat, s0: int, n: nat, s: int) {
    s0 <= s && AppendZeros(n, s - s0) == n0 && n % 10 != 0
  }

  /** There is only one such pair, so being stripped leaves no freedom to an implementation. */
  lemma {:induction false} StrippedIsUnique(n0: nat, a: nat, j: nat, b: nat, k: nat)
    requires IsStripped(n0, 0, a, j) && IsStripped(n0, 0, b, k)
    ensures a == b && j == k
  {
    if j == 0 || k == 0 {
    } else {
      StrippedIsUnique(n0 / 10, a, j - 1, b, k - 1);
    }
  }

  /** How many decimal zeros a number ends in. */
  function ZeroCount(n: nat): nat
    requires n > 0
  {
    if n % 10 != 0 then 0 else 1 + ZeroCount(n / 10)
  }

  lemma {:induction false} StrippedZeroCount(n: nat, k: nat)
    requires n > 0 && n % 10 != 0
    ensures AppendZeros(n, k) > 0 && ZeroCount(AppendZeros(n, k)) == k
  {
    if k == 0 {
    } else {
      StrippedZeroCount(n, k - 1);
      assert AppendZeros(n, k) / 10 == AppendZeros(n, k - 1);
    }
  }

  /** With `k` zeros moved, the exponent is right exactly when it has grown by `k`. */
  lemma StrippedIff(n0: nat, s0: int, n: nat, s: int, k: nat)
    requires n > 0 && n % 10 != 0 && AppendZeros(n, k) == n0
    ensures n0 > 0 && ZeroCount(n0) == k
    ensures IsStripped(n0, s0, n, s) <==> s == s0 + k
  {
    hide AppendZeros;
    StrippedZeroCount(n, k);
    if IsStripped(n0, s0, n, s) {
      StrippedZeroCount(n, s - s0);
    }
  }

  lemma {:induction false} AppendZerosStep(n: nat, k: nat)
    ensures AppendZeros(10 * n, k) == AppendZeros(n, k + 1)
  {
    if k == 0 {
    } else {
      AppendZerosStep(n, k - 1);
    }
  }

  /** `rotr(n * mod_inv_25, 2)`, with what the loop learns from it. */
  method DivideByHundred(w: Width, n: nat) returns (q: nat)
    requires 0 < n < Modulus(w)
    ensures q <= (Modulus(w) - 1) / 100 <==> n % 100 == 0
    ensures n % 100 == 0 ==> q == n / 100
  {
    HundredTest(w, n);
    q := Quotient100(w, n);
  }

  /** `rotr(n * mod_inv_5, 1)`. */
  method DivideByTen(w: Width, n: nat) returns (q: nat)
    requires 0 < n < Modulus(w)
    ensures q <= (Modulus(w) - 1) / 10 <==> n % 10 == 0
    ensures n % 10 == 0 ==> q == n / 10
  {
    TenTest(w, n);
    q := Quotient10(w, n);
  }

  /** `s |= 1` on a non-negative exponent. */
  function SetLowBit(s: nat): nat {
    if s % 2 == 0 then s + 1 else s
  }

  lemma SetLowBitOfSum(s: nat, k: nat)
    requires k % 2 == 0
    ensures SetLowBit(s + k) == if s % 2 == 0 then s + k + 1 else s + k
  {
  }

  lemma AppendNoZeros(n: nat)
    ensures AppendZeros(n, 0) == n
  {
  }

  /** A hundred that was divided out moves two zeros into the exponent. */
  lemma MoveTwoZeros(n: nat, q: nat, k: nat)
    requires n % 100 == 0 && q == n / 100
    ensures AppendZeros(q, k + 2) == AppendZeros(n, k)
  {
    AppendZerosStep(q, k + 1);
    AppendZerosStep(10 * q, k);
    assert 10 * (10 * q) == n;
  }

  lemma MoveOneZero(n: nat, q: nat, k: nat)
    requires n % 10 == 0 && q == n / 10
    ensures AppendZeros(q, k + 1) == AppendZeros(n, k)
    ensures q % 10 == 0 ==> n % 100 == 0
  {
    AppendZerosStep(q, k);
    assert 10 * q == n;
  }

  /** The loop of both `remove_trailing_zeros`: hundreds first, then at most one ten.  The significand
      is exact for every input.  The exponent is counted with `s |= 1`, so it is exact if and only if
      it starts even, as in both callers, or the number of zeros is even. */
  method StripZeros(w: Width, n0: nat, s0: nat) returns (n: nat, s: nat)
    requires 0 < n0 < Modulus(w)
    ensures 0 < n <= n0 && n % 10 != 0 && AppendZeros(n, ZeroCount(n0)) == n0
    ensures IsStripped(n0, s0, n, s) <==> s0 % 2 == 0 || ZeroCount(n0) % 2 == 0
  {
    hide AppendZeros, ZeroCount, IsStripped, SetLowBit;
    n, s := n0, s0;
    AppendNoZeros(n0);
    ghost var k: nat := 0;
    while true
      invariant 0 < n <= n0 && s == s0 + k && k % 2 == 0
      invariant AppendZeros(n, k) == n0
      decreases n
    {
      var q := DivideByHundred(w, n);
      if q > (Modulus(w) - 1) / 100 {
        break;
      }
      MoveTwoZeros(n, q, k);
      n, s, k := q, s + 2, k + 2;
    }
    var q := DivideByTen(w, n);
    if q <= (Modulus(w) - 1) / 10 {
      MoveOneZero(n, q, k);
      SetLowBitOfSum(s0, k);
      n, s, k := q, SetLowBit(s), k + 1;
    }
    StrippedIff(n0, s0, n, s, k);
  }

  // ---------- Divisibility by 10^8, and the 64-bit version ----------

  /** `ceil(2^90 / 10^8)`. */
  const MAGIC: nat := 12379400392853802749

  function High64(product: nat): nat { product / 0x1_0000_0000_0000_0000 }

  function Low64(product: nat): nat { product % 0x1_0000_0000_0000_0000 }

  /** The test on the 128-bit product: its low 90 bits are below the magic number. */
  predicate LowBitsBelowMagic(product: nat) {
    High64(product) % 0x400_0000 == 0 && Low64(product) < MAGIC
  }

  /** For every 64-bit `n` the magic multiplication decides divisibility by 10^8, and the bits
      above the 90th are the quotient whether or not it is exact. */
  lemma EightZerosTest(n: nat)
    requires n < Modulus(Bits64)
    ensures LowBitsBelowMagic(n * MAGIC) <==> n % 100_000_000 == 0
    ensures High64(n * MAGIC) / 0x400_0000 == n / 100_000_000
  {
    var k, r := n / 100_000_000, n % 100_000_000;
    var x := 875776 * k + r * MAGIC;  // MAGIC * 10^8 == 2^90 + 875776
    assert n * MAGIC == k * 0x400_0000_0000_0000_0000_0000 + x;
    SplitProduct(k, x);
  }

  /** The two halves of a product given by its part above bit 90 and its low 90 bits. */
  lemma SplitProduct(k: nat, x: nat)
    requires x < 0x400_0000_0000_0000_0000_0000
    ensures var product := k * 0x400_0000_0000_0000_0000_0000 + x;
      && High64(product) / 0x400_0000 == k
      && (LowBitsBelowMagic(product) <==> x < MAGIC)
  {
    var product := k * 0x400_0000_0000_0000_0000_0000 + x;
    var h, l := x / 0x1_0000_0000_0000_0000, x % 0x1_0000_0000_0000_0000;
    DivModUnique(product, 0x1_0000_0000_0000_0000, k * 0x400_0000 + h, l);
    DivModUnique(High64(product), 0x400_0000, k, h);
  }

  lemma EightZeros(n: nat, k: nat)
    requires k >= 8
    ensures AppendZeros(n, k) == 100_000_000 * AppendZeros(n, k - 8)
  {
    assert AppendZeros(n, k) == 100 * AppendZeros(n, k - 2);
    assert AppendZeros(n, k - 2) == 100 * AppendZeros(n, k - 4);
    assert AppendZeros(n, k - 4) == 100 * AppendZeros(n, k - 6);
    assert AppendZeros(n, k - 6) == 100 * AppendZeros(n, k - 8);
  }

  /** Stripping the quotient cast to 32 bits, with the exponent starting at 8, is exact if and only
      if the cast kept the quotient. */
  lemma StrippedQuotient(n0: nat, cast: nat, n: nat, s: nat)
    requires n0 % 100_000_000 == 0 && IsStripped(cast, 8, n, s)
    ensures IsStripped(n0, 0, n, s) <==> cast == n0 / 100_000_000
  {
    EightZeros(n, s);
  }

  /** The 64-bit `remove_trailing_zeros`.  The result is `None` where the callee's assertion that
      its argument is not zero fails.  It is exact on precisely those inputs that are not a multiple
      of 10^8 with a quotient too large for 32 bits. */
  method RemoveTrailingZeros64(n0: nat) returns (r: Option<(nat, nat)>)
    requires 0 < n0 < Modulus(Bits64)
    ensures (r.Some? && IsStripped(n0, 0, r.value.0, r.value.1))
      <==> (n0 % 100_000_000 != 0 || n0 < 0x1_0000_0000 * 100_000_000)
    ensures r.None? <==> n0 % 100_000_000 == 0 && n0 / 100_000_000 % Modulus(Bits32) == 0
  {
    hide AppendZeros, ZeroCount, IsStripped, High64, Low64, LowBitsBelowMagic;
    EightZerosTest(n0);
    var nm := n0 * MAGIC;
    if LowBitsBelowMagic(nm) {
      var n32 := High64(nm) / 0x400_0000 % Modulus(Bits32);
      if n32 == 0 {
        return None;
      }
      var n, s := StripZeros(Bits32, n32, 8);
      StrippedQuotient(n0, n32, n, s);
      r := Some((n, s));
    } else {
      var n, s := StripZeros(Bits64, n0, 0);
      r := Some((n, s));
    }
  }

  // ---------- Division by 100 and by 1000 ----------

  /** `(n * ceil(2^37 / 100)) >> 37`. */
  function DivideBy100(n: nat): nat {
    n * 1374389535 / 0x20_0000_0000
  }

  /** The upper half of the product with `ceil(2^71 / 1000)`, shifted right by 7. */
  function DivideBy1000(n: nat): nat {
    High64(n * 2361183241434822607) / 128
  }

  lemma DivideBy100IsExact(n: nat)
    requires n < Modulus(Bits32)
    ensures DivideBy100(n) == n / 100
  {
    var k, r := n / 100, n % 100;
    assert n * 1374389535 == k * 0x20_0000_0000 + (28 * k + r * 1374389535);
  }

  /** Among all 64-bit `n`, the division by 1000 is wrong exactly for the last residue beyond
      15534100272597517998. */
  lemma DivideBy1000IsExactIff(n: nat)
    requires n < Modulus(Bits64)
    ensures DivideBy1000(n) == n / 1000 <==> (n % 1000 != 999 || n < 15534100272597517999)
  {
    var k, r := n / 1000, n % 1000;
    var x := 152 * k + r * 2361183241434822607;
    var product := n * 2361183241434822607;
    assert product == k * 0x80_0000_0000_0000_0000 + x;
    assert DivideBy1000(n) == product / 0x80_0000_0000_0000_0000;
    if x < 0x80_0000_0000_0000_0000 {
      DivModUnique(product, 0x80_0000_0000_0000_0000, k, x);
    } else {
      DivModUnique(product, 0x80_0000_0000_0000_0000, k + 1, x - 0x80_0000_0000_0000_0000);
    }
  }
}
