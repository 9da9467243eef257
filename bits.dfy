/**
  * Alignment helpers of the allocator header: the power-of-two test,
  * rounding up to the next power of two and forward alignment of an
  * address. The C code works on 64-bit unsigned integers (`usize`) with
  * bitwise operators; here numbers are naturals, the functions that model
  * the C helpers take arguments below 2^64, bitwise AND is defined bit by
  * bit, and the places where unsigned wrap-around changes the result are
  * written out modulo 2^64: `n - 1` for `n == 0`, and the top-up of
  * `align_forward` past the last aligned address. `Pow2`, `PowerOf2` and
  * `AlignUp` are reference definitions on naturals of any size.
  */
module Bits {

  /** 2^k, i.e. `1 << k`. */
  function Pow2(k: nat): (r: nat)
    ensures r >= 1
  {
    if k == 0 then 1 else 2 * Pow2(k - 1)
  }

  /** Reference definition: n is 2^k for some k. */
  predicate PowerOf2(n: nat)
    decreases n
  {
    n == 1 || (n > 1 && n % 2 == 0 && PowerOf2(n / 2))
  }

  /** Number of set bits in the binary representation of n. */
  function PopCount(n: nat): nat
  {
    if n == 0 then 0 else n % 2 + PopCount(n / 2)
  }

  /** Number of significant bits of n (0 for 0). */
  function BitLength(n: nat): nat
  {
    if n == 0 then 0 else 1 + BitLength(n / 2)
  }

  /** Bitwise AND of two naturals, one bit at a time. */
  function BitAnd(a: nat, b: nat): (r: nat)
    ensures r <= a && r <= b
    decreases a
  {
    if a == 0 || b == 0 then 0
    else 2 * BitAnd(a / 2, b / 2) + (if a % 2 == 1 && b % 2 == 1 then 1 else 0)
  }

  /** `__builtin_clzll`: leading zero bits of a non-zero 64-bit value. */
  function CountLeadingZeros64(n: nat): (r: nat)
    requires 1 <= n < Pow2(64)
    ensures r == 64 - BitLength(n) && r < 64
    decreases Pow2(64) - n
  {
    ClzBitLength(n);
    if n >= Pow2(63) then 0 else 1 + CountLeadingZeros64(2 * n)
  }

  // ---------------------------------------------------------------------
  // Facts about the definitions above
  // ---------------------------------------------------------------------

  lemma {:induction false} Pow2Monotone(j: nat, k: nat)
    requires j <= k
    ensures Pow2(j) <= Pow2(k)
    decreases k
  {
    if j < k { Pow2Monotone(j, k - 1); }
  }

  lemma {:induction false} Pow2IsPowerOf2(k: nat)
    ensures PowerOf2(Pow2(k))
  {
    if k > 0 {
      Pow2IsPowerOf2(k - 1);
      assert Pow2(k) / 2 == Pow2(k - 1);
    }
  }

  lemma {:induction false} BitAndSelf(a: nat)
    ensures BitAnd(a, a) == a
    decreases a
  {
    if a > 0 { BitAndSelf(a / 2); }
  }

  lemma {:induction false} PopCountZero(n: nat)
    ensures PopCount(n) == 0 <==> n == 0
    decreases n
  {
    if n > 0 { PopCountZero(n / 2); }
  }

  /** At most one set bit is the same as being zero or a power of two. */
  lemma {:induction false} PopCountAtMostOne(n: nat)
    ensures PopCount(n) <= 1 <==> n == 0 || PowerOf2(n)
    decreases n
  {
    if n > 0 {
      PopCountAtMostOne(n / 2);
      PopCountZero(n / 2);
    }
  }

  /** For n >= 1, `n & (n - 1)` clears the lowest set bit, so it is zero
      exactly for powers of two. */
  lemma {:induction false} ClearLowestBit(n: nat)
    requires n >= 1
    ensures BitAnd(n, n - 1) == 0 <==> PowerOf2(n)
    decreases n
  {
    if n % 2 == 1 {
      if n > 1 {
        assert (n - 1) / 2 == n / 2;
        BitAndSelf(n / 2);
      }
    } else {
      assert (n - 1) / 2 == n / 2 - 1;
      ClearLowestBit(n / 2);
    }
  }

  /** The bit test, wrap-around included, accepts 0 and the powers of two. */
  lemma BitTest(n: nat)
    requires n < Pow2(64)
    ensures BitAnd(n, (n - 1) % Pow2(64)) == 0 <==> n == 0 || PowerOf2(n)
  {
    if n >= 1 {
      WrappedClearLowestBit(n);
    }
  }

  /** For n >= 1 the subtraction does not wrap and the bit test is
      `ClearLowestBit`. */
  lemma WrappedClearLowestBit(n: nat)
    requires 1 <= n < Pow2(64)
    ensures BitAnd(n, (n - 1) % Pow2(64)) == 0 <==> PowerOf2(n)
  {
    WrapSmall(n - 1);
    ClearLowestBit(n);
  }

  /** Values below 2^64 are their own 64-bit wrap-around. */
  lemma WrapSmall(x: int)
    requires 0 <= x < Pow2(64)
    ensures x % Pow2(64) == x
  {
    ModUnique(x, Pow2(64), 0, x);
  }

  /** `p & (2^k - 1)` is `p mod 2^k`. */
  lemma {:induction false} MaskIsMod(p: nat, k: nat)
    ensures BitAnd(p, Pow2(k) - 1) == p % Pow2(k)
    decreases k
  {
    if k == 0 {
      ModUnique(p, 1, p, 0);
    } else if p == 0 {
      ModUnique(0, Pow2(k), 0, 0);
    } else {
      var m := Pow2(k - 1);
      var c := Pow2(k) - 1;
      ModUnique(c, 2, m - 1, 1);
      var h, b := p / 2, p % 2;
      DivMod(p, 2);
      BitAndOddMask(p, c);
      MaskIsMod(h, k - 1);
      DoubleMod(p, h, b, m);
    }
  }

  /** Against an odd mask, the lowest bit of a survives as it is. */
  lemma BitAndOddMask(a: nat, c: nat)
    requires a > 0 && c % 2 == 1
    ensures BitAnd(a, c) == 2 * BitAnd(a / 2, c / 2) + a % 2
  {
  }

  lemma {:induction false} MulAtLeast(d: int, x: int)
    requires d > 0 && x >= 1
    ensures d * x >= d
    decreases x
  {
    if x > 1 {
      MulAtLeast(d, x - 1);
      assert d * x == d * (x - 1) + d;
    }
  }

  lemma DivMod(a: int, d: int)
    requires d > 0
    ensures a == d * (a / d) + a % d && 0 <= a % d < d
  {
  }

  /** If p = 2h + b with b a bit, then p mod 2m is 2 (h mod m) + b. */
  lemma DoubleMod(p: int, h: int, b: int, m: int)
    requires m > 0 && 0 <= b < 2 && p == 2 * h + b
    ensures p % (2 * m) == 2 * (h % m) + b
  {
    var q, r := h / m, h % m;
    DivMod(h, m);
    assert p == (2 * m) * q + (2 * r + b);
    ModUnique(p, 2 * m, q, 2 * r + b);
  }

  /** Quotient and remainder are determined by `a == d * q + r, 0 <= r < d`. */
  lemma ModUnique(a: int, d: int, q: int, r: int)
    requires d > 0 && 0 <= r < d && a == d * q + r
    ensures a % d == r && a / d == q
  {
    var q', r' := a / d, a % d;
    DivMod(a, d);
    assert d * (q - q') == r' - r;
    assert d * (q' - q) == r - r';
    if q - q' >= 1 {
      MulAtLeast(d, q - q');
    } else if q' - q >= 1 {
      MulAtLeast(d, q' - q);
    }
  }

  lemma {:induction false} PowerOf2IsPow2(n: nat)
    requires PowerOf2(n)
    ensures n == Pow2(BitLength(n) - 1) && BitLength(n) >= 1
    decreases n
  {
    if n > 1 { PowerOf2IsPow2(n / 2); }
  }

  /** Bit length brackets the value between two consecutive powers of two. */
  lemma {:induction false} BitLengthBounds(n: nat)
    requires n >= 1
    ensures BitLength(n) >= 1
    ensures Pow2(BitLength(n) - 1) <= n < Pow2(BitLength(n))
    decreases n
  {
    if n > 1 { BitLengthBounds(n / 2); }
  }

  lemma {:induction false} BitLengthOfRange(n: nat, k: nat)
    requires Pow2(k) <= n < Pow2(k + 1)
    ensures BitLength(n) == k + 1
    decreases k
  {
    if k > 0 { BitLengthOfRange(n / 2, k - 1); }
  }

  lemma {:induction false} ClzBitLength(n: nat)
    requires 1 <= n < Pow2(64)
    ensures 1 <= BitLength(n) <= 64
    ensures n >= Pow2(63) ==> BitLength(n) == 64
    ensures n < Pow2(63) ==> 2 * n < Pow2(64) && BitLength(2 * n) == BitLength(n) + 1
  {
    if n >= Pow2(63) {
      BitLengthOfRange(n, 63);
    } else {
      assert (2 * n) / 2 == n;
      BitLengthBounds(n);
      if BitLength(n) > 64 { Pow2Monotone(64, BitLength(n) - 1); }
    }
  }

  /** Two powers of two differ at least by a factor of two. */
  lemma {:induction false} PowersOf2Spaced(p: nat, q: nat)
    requires PowerOf2(p) && PowerOf2(q) && p < q
    ensures 2 * p <= q
    decreases p
  {
    if p > 1 { PowersOf2Spaced(p / 2, q / 2); }
  }

  // ---------------------------------------------------------------------
  // The header's functions
  // ---------------------------------------------------------------------

  /** `is_power_of_two`: `(n & (n - 1)) == 0` on a 64-bit unsigned value;
      for n == 0 the subtraction wraps to all ones. True exactly when n
      has at most one set bit, which includes 0. */
  function IsPowerOfTwo(n: nat): (b: bool)
    requires n < Pow2(64)
    ensures b <==> PopCount(n) <= 1
    ensures b <==> n == 0 || PowerOf2(n)
  {
    PopCountAtMostOne(n);
    BitTest(n);
    BitAnd(n, (n - 1) % Pow2(64)) == 0
  }

  /** `next_power_of_two`: n itself when the bit test accepts it, otherwise
      `1 << (64 - clz(n))`. The shift is undefined for a 64-bit shift, so
      values at or above 2^63 that are not powers of two are excluded. */
  function NextPowerOfTwo(n: nat): (r: nat)
    requires n < Pow2(64)
    requires n < Pow2(63) || IsPowerOfTwo(n)
    ensures n == 0 || PowerOf2(n) ==> r == n
    ensures !(n == 0 || PowerOf2(n)) ==> PowerOf2(r) && n < r < 2 * n
  {
    if IsPowerOfTwo(n) then n
    else
      var shift := 64 - CountLeadingZeros64(n);
      NextPow2Bounds(n, shift);
      Pow2(shift)
  }

  /** Above a value that is not a power of two, the power of two with one
      bit more is less than twice the value. */
  lemma NextPow2Bounds(n: nat, shift: nat)
    requires n >= 1 && !PowerOf2(n) && shift == BitLength(n)
    ensures PowerOf2(Pow2(shift)) && n < Pow2(shift) < 2 * n
  {
    BitLengthBounds(n);
    Pow2IsPowerOf2(BitLength(n));
    Pow2IsPowerOf2(BitLength(n) - 1);
  }

  /** The rounded-up value is the least power of two not below n. */
  lemma NextPowerOfTwoIsLeast(n: nat, p: nat)
    requires n < Pow2(64)
    requires n < Pow2(63) || IsPowerOfTwo(n)
    requires PowerOf2(p) && p >= n
    ensures NextPowerOfTwo(n) <= p
  {
    var r := NextPowerOfTwo(n);
    if r > p { PowersOf2Spaced(p, r); }
  }

  /** `align_forward` as written: the guard is `is_power_of_two(align)`,
      the remainder is `ptr & (align - 1)` with `align - 1` converted to
      `usize`, and a non-zero remainder is topped up to the boundary, the
      sum wrapping modulo 2^64. For a power-of-two alignment this is the
      next aligned address, except that above the last aligned address
      below 2^64 the boundary is 2^64 itself and wraps to 0. */
  function AlignForward(ptr: nat, align: nat): (r: nat)
    requires ptr < Pow2(64) && align < Pow2(64) && IsPowerOfTwo(align)
    ensures r < Pow2(64)
    ensures PowerOf2(align) ==> AlignUp(ptr, align) <= Pow2(64) && r == AlignUp(ptr, align) % Pow2(64)
    ensures PowerOf2(align) && AlignUp(ptr, align) < Pow2(64) ==> r == AlignUp(ptr, align)
    ensures PowerOf2(align) && AlignUp(ptr, align) == Pow2(64) ==> r == 0
  {
    var m := BitAnd(ptr, (align - 1) % Pow2(64));
    AlignForwardMeaning(ptr, align, m);
    var sum := if m != 0 then ptr + (align - m) else ptr;
    WrapAtMost(sum);
    sum % Pow2(64)
  }

  lemma AlignForwardMeaning(ptr: nat, align: nat, m: nat)
    requires ptr < Pow2(64) && align < Pow2(64) && m == BitAnd(ptr, (align - 1) % Pow2(64))
    ensures m <= ptr
    ensures PowerOf2(align) ==> m == ptr % align && AlignUp(ptr, align) <= Pow2(64)
  {
    if PowerOf2(align) {
      MaskIsRemainder(ptr, align, m);
      PowerOf2IsPow2(align);
      var k := BitLength(align) - 1;
      if k > 64 { Pow2Monotone(64, k); }
      Pow2Divides(k, 64);
    }
  }

  /** A sum that may reach 2^64 is kept modulo 2^64: unchanged below it,
      0 at it. */
  lemma WrapAtMost(x: int)
    requires 0 <= x <= Pow2(64)
    ensures x % Pow2(64) == (if x < Pow2(64) then x else 0)
  {
    if x < Pow2(64) { WrapSmall(x); } else { ModUnique(x, Pow2(64), 1, 0); }
  }

  /** 2^k is a multiple of every smaller power of two. */
  lemma Pow2Divides(j: nat, k: nat)
    requires j <= k
    ensures Pow2(k) % Pow2(j) == 0
  {
    Pow2Split(j, k);
    ModUnique(Pow2(k), Pow2(j), Pow2(k - j), 0);
  }

  lemma {:induction false} Pow2Split(j: nat, k: nat)
    requires j <= k
    ensures Pow2(k) == Pow2(j) * Pow2(k - j)
    decreases k
  {
    if j < k {
      Pow2Split(j, k - 1);
      assert Pow2(k - j) == 2 * Pow2(k - 1 - j);
    }
  }

  /** Wrap-around at the top of the address space: an unaligned address
      within `align` of 2^64 has no aligned successor below 2^64, and
      `align_forward` takes it to 0. */
  lemma AlignForwardWrapsAtTop(ptr: nat, align: nat)
    requires PowerOf2(align) && align < Pow2(64) && ptr < Pow2(64)
    requires Pow2(64) < ptr + align && ptr % align != 0
    ensures AlignForward(ptr, align) == 0
  {
    var r := AlignUp(ptr, align);
    assert r == Pow2(64) by {
      AlignForwardMeaning(ptr, align, BitAnd(ptr, (align - 1) % Pow2(64)));
      if r < Pow2(64) {
        PowerOf2IsPow2(align);
        var k := BitLength(align) - 1;
        if k > 64 { Pow2Monotone(64, k); }
        Pow2Divides(k, 64);
        MultiplesApart(r, Pow2(64), align);
      }
    }
  }

  /** For a power-of-two alignment the mask leaves the remainder. */
  lemma MaskIsRemainder(ptr: nat, align: nat, m: nat)
    requires PowerOf2(align) && align < Pow2(64)
    requires m == BitAnd(ptr, (align - 1) % Pow2(64))
    ensures m == ptr % align
  {
    PowerOf2IsPow2(align);
    WrapSmall(align - 1);
    MaskOfPow2(ptr, align, BitLength(align) - 1, m);
  }

  lemma MaskOfPow2(ptr: nat, align: nat, k: nat, m: nat)
    requires align == Pow2(k) && m == BitAnd(ptr, align - 1)
    ensures m == ptr % align
  {
    MaskIsMod(ptr, k);
  }

  /** Topping up a remainder m of ptr modulo a reaches the next multiple. */
  lemma RoundUpToMultiple(ptr: nat, a: nat, m: nat)
    requires a > 0 && m == ptr % a
    ensures var r := if m != 0 then ptr + (a - m) else ptr;
      ptr <= r < ptr + a && r % a == 0 && (m == 0 ==> r == ptr)
  {
    DivMod(ptr, a);
    if m != 0 {
      assert ptr + (a - m) == a * (ptr / a + 1);
      ModUnique(ptr + (a - m), a, ptr / a + 1, 0);
    }
  }

  /** The guard of `align_forward` lets alignment 0 through, because
      `is_power_of_two(0)` holds; the mask is then all ones and any
      non-zero address is "aligned" down to 0. */
  lemma AlignForwardZeroAlign(ptr: nat)
    requires 0 < ptr < Pow2(64)
    ensures IsPowerOfTwo(0)
    ensures AlignForward(ptr, 0) == 0 < ptr
  {
    var P, allOnes := Pow2(64), -1;
    ModUnique(allOnes, P, -1, P - 1);
    MaskIsMod(ptr, 64);
    ModUnique(ptr, P, 0, ptr);
    assert BitAnd(ptr, P - 1) == ptr;
    ModUnique(0, P, 0, 0);
  }

  /** `align_forward` with the guard its assertion evidently intends, on
      addresses of any size: the alignment is a non-zero power of two and a
      non-zero remainder is topped up to the next multiple. The result is
      the least multiple of align at or above ptr. */
  function AlignUp(ptr: nat, align: nat): (r: nat)
    requires PowerOf2(align)
    ensures ptr <= r < ptr + align && r % align == 0
    ensures ptr % align == 0 ==> r == ptr
    ensures forall q: nat :: ptr <= q && q % align == 0 ==> r <= q
  {
    var m := ptr % align;
    RoundUpToMultiple(ptr, align, m);
    var r := if m != 0 then ptr + (align - m) else ptr;
    forall q: nat | ptr <= q && q % align == 0 ensures r <= q {
      if q < r { MultiplesApart(q, r, align); }
    }
    r
  }

  /** Two distinct multiples of a are at least a apart. */
  lemma MultiplesApart(q: nat, r: nat, a: nat)
    requires a > 0 && q < r && q % a == 0 && r % a == 0
    ensures q + a <= r
  {
    DivMod(q, a);
    DivMod(r, a);
    var x, y := q / a, r / a;
    assert r - q == a * (y - x);
    if y - x >= 1 {
      MulAtLeast(a, y - x);
    } else {
      MulNonPositive(a, y - x);
    }
  }

  lemma MulNonPositive(d: int, x: int)
    requires d > 0 && x <= 0
    ensures d * x <= 0
  {
    if x < 0 { MulAtLeast(d, -x); }
  }

  /** Aligning an aligned address changes nothing, so aligning twice is
      aligning once. */
  lemma AlignUpIdempotent(ptr: nat, align: nat)
    requires PowerOf2(align)
    ensures AlignUp(AlignUp(ptr, align), align) == AlignUp(ptr, align)
  {
  }

  /** The platform's pointer width, `sizeof(void*)` on a 64-bit target. */
  const DEFAULT_ALIGN: nat := 8

  lemma DefaultAlignIsPowerOf2()
    ensures PowerOf2(DEFAULT_ALIGN) && DEFAULT_ALIGN < Pow2(64)
  {
    assert Pow2(3) == 8;
    Pow2Monotone(4, 64);
  }
}
