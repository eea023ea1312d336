/** 64-bit division built from a 64-by-32-bit divide, as in PintOS/src/lib/arithmetic.c.

    Fixed-width values are subset types of `int`; every place where the C code can wrap or
    truncate is written out with `Low32`, `Low64` or `Signed64`. */
module Division {

  const B32: int := 0x1_0000_0000
  const B64: int := 0x1_0000_0000_0000_0000
  const B63: int := 0x8000_0000_0000_0000

  type UInt32 = x: int | 0 <= x < 0x1_0000_0000
  type UInt64 = x: int | 0 <= x < 0x1_0000_0000_0000_0000
  type Int32 = x: int | -0x8000_0000 <= x < 0x8000_0000
  type Int64 = x: int | -0x8000_0000_0000_0000 <= x < 0x8000_0000_0000_0000

  /** The processor either delivers a result or raises a divide error (#DE). */
  datatype Outcome<+T> = Value(value: T) | DivideError

  function Low32(x: int): UInt32 { x % B32 }

  function Low64(x: int): UInt64 { x % B64 }

  /** Two's complement reading of the low 64 bits of `x`. */
  function Signed64(x: int): Int64 {
    var u := Low64(x);
    if u < B63 then u else u - B64
  }

  /** Two's complement reading of the low 32 bits of `x`. */
  function Signed32(x: int): Int32 {
    var u := Low32(x);
    if u < 0x8000_0000 then u else u - B32
  }

  /** The quotient rounded toward zero that C's `/` promises for signed operands. */
  function Truncated(n: int, d: int): int
    requires d != 0
  {
    WithSign((n < 0) != (d < 0), Abs(n) / Abs(d))
  }

  function WithSign(negative: bool, x: int): int { if negative then -x else x }

  function Abs(x: int): (r: nat) { if x < 0 then -x else x }

  function Pow2(k: nat): (p: nat)
    ensures p > 0
  {
    if k == 0 then 1 else 2 * Pow2(k - 1)
  }

  /** The DIVL instruction: faults on a zero divisor or when the quotient needs more than 32 bits. */
  function Divl(n: UInt64, d: UInt32): (r: Outcome<UInt32>)
  {
    if d == 0 || n / d >= B32 then DivideError else Value(n / d)
  }

  /** The number of doublings that bring `x` into the top half of the 32-bit range. */
  function LeadingZeros(x: UInt32): nat
    requires x != 0
    decreases B32 - x
  {
    if x >= B32 / 2 then 0 else LeadingZeros(2 * x) + 1
  }

  /** Shifting left by `LeadingZeros(x)` normalises `x` without losing a bit. */
  lemma {:induction false} LeadingZerosNormalise(x: UInt32)
    requires x != 0
    ensures B32 / 2 <= x * Pow2(LeadingZeros(x)) < B32
    ensures LeadingZeros(x) <= 31
    decreases B32 - x
  {
    hide Pow2;
    if x < B32 / 2 {
      LeadingZerosNormalise(2 * x);
      var m := LeadingZeros(2 * x);
      Pow2Next(m);
      MoveTwo(x, Pow2(m), Pow2(m + 1));
      if m == 31 {
        Pow2Values();
        MulMonotone(2, 2 * x, Pow2(31));
      }
    } else {
      Pow2Zero();
    }
  }

  lemma Pow2Zero()
    ensures Pow2(0) == 1
  {
  }

  lemma Pow2Next(m: nat)
    ensures Pow2(m + 1) == 2 * Pow2(m)
  {
  }

  lemma MoveTwo(x: int, p: int, q: int)
    requires q == 2 * p
    ensures x * q == 2 * x * p
  {
  }

  lemma {:induction false} Pow2Add(a: nat, b: nat)
    ensures Pow2(a + b) == Pow2(a) * Pow2(b)
  {
    hide Pow2;
    if a == 0 {
      Pow2Zero();
    } else {
      Pow2Add(a - 1, b);
      Pow2Next(a - 1);
      Pow2Next(a + b - 1);
      MulAssoc(2, Pow2(a - 1), Pow2(b));
    }
  }

  lemma Pow2Values()
    ensures Pow2(8) == 0x100 && Pow2(16) == 0x1_0000 && Pow2(31) == B32 / 2 && Pow2(32) == B32
  {
    Pow2Add(4, 4);
    Pow2Add(8, 8);
    Pow2Add(16, 16);
  }

  lemma MulMonotone(a: int, b: int, c: int)
    requires a <= b && 0 <= c
    ensures a * c <= b * c
  {
  }

  lemma LeadingZerosOne(x: UInt32)
    requires x != 0 && 2 * x < B32
    ensures LeadingZeros(x) == 1 + LeadingZeros(2 * x)
  {
  }

  lemma LeadingZerosTwo(x: UInt32)
    requires x != 0 && 4 * x < B32
    ensures LeadingZeros(x) == 2 + LeadingZeros(4 * x)
  {
    hide LeadingZeros;
    LeadingZerosOne(x);
    LeadingZerosOne(2 * x);
  }

  lemma LeadingZerosFour(x: UInt32)
    requires x != 0 && 0x10 * x < B32
    ensures LeadingZeros(x) == 4 + LeadingZeros(0x10 * x)
  {
    hide LeadingZeros;
    LeadingZerosTwo(x);
    LeadingZerosTwo(4 * x);
  }

  lemma LeadingZerosEight(x: UInt32)
    requires x != 0 && 0x100 * x < B32
    ensures LeadingZeros(x) == 8 + LeadingZeros(0x100 * x)
  {
    hide LeadingZeros;
    LeadingZerosFour(x);
    LeadingZerosFour(0x10 * x);
  }

  lemma LeadingZerosSixteen(x: UInt32)
    requires x != 0 && 0x1_0000 * x < B32
    ensures LeadingZeros(x) == 16 + LeadingZeros(0x1_0000 * x)
  {
    hide LeadingZeros;
    LeadingZerosEight(x);
    LeadingZerosEight(0x100 * x);
  }

  lemma LeadingZerosTop(x: UInt32)
    requires x >= B32 / 4
    ensures LeadingZeros(x) == if x < B32 / 2 then 1 else 0
  {
  }

  /** `nlz`: a binary search over five shift widths. */
  method Nlz(x0: UInt32) returns (n: nat)
    requires x0 != 0
    ensures n == LeadingZeros(x0)
  {
    hide LeadingZeros;
    n := 0;
    var x := x0;
    if x <= 0x0000FFFF { LeadingZerosSixteen(x); n := n + 16; x := x * 0x1_0000; }
    if x <= 0x00FFFFFF { LeadingZerosEight(x); n := n + 8; x := x * 0x100; }
    if x <= 0x0FFFFFFF { LeadingZerosFour(x); n := n + 4; x := x * 0x10; }
    if x <= 0x3FFFFFFF { LeadingZerosTwo(x); n := n + 2; x := x * 4; }
    LeadingZerosTop(x);
    if x <= 0x7FFFFFFF { n := n + 1; }
  }

  /** The normalised high word `(d << s) >> 32` of the divisor, for `s` leading zeros. */
  function HighWord(d: UInt64, s: nat): (v: UInt32)
  {
    Low64(d * Pow2(s)) / B32
  }

  /** `x >> k` */
  function ShiftRight(x: nat, k: nat): (r: nat)
    ensures r <= x
  {
    QuotientSmaller(x, Pow2(k));
    x / Pow2(k)
  }

  lemma QuotientSmaller(x: nat, p: nat)
    requires p > 0
    ensures 0 <= x / p <= x
  {
    MulMonotone(1, p, x / p);
  }

  /** The quotient estimate `divl (n >> 1, (d << s) >> 32) >> (31 - s)`. */
  function Estimate(n: UInt64, d: UInt64): Outcome<UInt64>
    requires d >= B32
  {
    var s := LeadingZeros(d / B32);
    LeadingZerosNormalise(d / B32);
    match Divl(n / 2, HighWord(d, s))
    case DivideError => DivideError
    case Value(q1) => Value(ShiftRight(q1, 31 - s))
  }

  /** Division by a nonzero 32-bit divisor: long division in base 2^32, one digit at a time. */
  function ShortQuotient(n: UInt64, d: UInt32): Outcome<UInt64>
    requires d != 0
  {
    SecondDigit(d, n / B32 / d, n / B32 % d, Low32(n))
  }

  /** Given the first digit `q1` with remainder `r1`, divide the rest and put the digits together. */
  function SecondDigit(d: UInt32, q1: nat, r1: nat, n0: UInt32): Outcome<UInt64>
    requires d != 0
  {
    match Divl(Low64(B32 * r1 + n0), d)
    case DivideError => DivideError
    case Value(q0) => Value(Low64(q0 + B32 * q1))
  }

  /** The last step for a larger divisor: take one off the estimate `q` if the remainder says so. */
  function CorrectEstimate(n: UInt64, d: UInt64, q: UInt64): UInt64 {
    if Low64(n - Low64(Low64(q - 1) * d)) < d then Low64(q - 1) else q
  }

  /** Division by a divisor of more than 32 bits: estimate, then correct. */
  function LongQuotient(n: UInt64, d: UInt64): Outcome<UInt64>
    requires d >= B32
  {
    match Estimate(n, d)
    case DivideError => DivideError
    case Value(q) => Value(CorrectEstimate(n, d, q))
  }

  /** `udiv64` */
  function UDiv64(n: UInt64, d: UInt64): Outcome<UInt64> {
    if d / B32 == 0 then
      if Low32(d) == 0 then DivideError else ShortQuotient(n, Low32(d))
    else if n < d then Value(0)
    else LongQuotient(n, d)
  }

  /** `udiv64` is exact for every nonzero divisor, and faults exactly for zero. */
  lemma UDiv64Exact(n: UInt64, d: UInt64)
    ensures d != 0 ==> UDiv64(n, d) == Value(n / d)
    ensures d == 0 ==> UDiv64(n, d) == DivideError
  {
    hide ShortQuotient, LongQuotient;
    if 0 < d < B32 {
      ShortDivision(n, d);
    } else if d >= B32 {
      if n < d {
        QuotientUnique(n, d, 0, n);
      } else {
        LongDivision(n, d);
      }
    }
  }

  /** No partial quotient of the short division overflows, and the two digits recombine. */
  lemma ShortDivision(n: UInt64, d: UInt32)
    requires d != 0
    ensures ShortQuotient(n, d) == Value(n / d)
  {
    var n1 := n / B32;
    SecondDigitExact(n, d, n1 / d, n1 % d, Low32(n));
  }

  lemma SecondDigitExact(n: UInt64, d: UInt32, q1: nat, r1: nat, n0: UInt32)
    requires d != 0 && r1 < d && n == B32 * (q1 * d + r1) + n0
    ensures SecondDigit(d, q1, r1, n0) == Value(n / d)
  {
    hide Divl, Low64;
    var m := B32 * r1 + n0;
    PartialQuotientFits(m, d);
    QuotientBounds(m, d);
    DigitsRecombine(n, d, q1, m / d, m);
    QuotientSmaller(n, d);
    FitsUInt64(n / d);
  }

  lemma PartialQuotientFits(m: nat, d: UInt32)
    requires d != 0 && m < B32 * d
    ensures Divl(Low64(m), d) == Value(m / d)
  {
    FitsUInt64(m);
    var q := m / d;
    QuotientBounds(m, d);
    if q >= B32 { MulMonotone(B32, q, d); }
  }

  lemma FitsUInt64(x: int)
    requires 0 <= x < B64
    ensures Low64(x) == x
  {
  }

  lemma DigitsRecombine(n: nat, d: nat, q1: nat, q0: nat, m: nat)
    requires d > 0 && n == B32 * (q1 * d) + m && q0 * d <= m < q0 * d + d
    ensures q0 + B32 * q1 == n / d
  {
    MulAssoc(B32, q1, d);
    assert (q0 + B32 * q1) * d == q0 * d + (B32 * q1) * d;
    QuotientUnique(n, d, q0 + B32 * q1, m - q0 * d);
  }

  /** `q` is the quotient `q'` of `n` by `d` or one more, and the remainder test tells which. */
  ghost predicate OffByAtMostOne(n: nat, d: nat, q: int, q': int) {
    && 1 <= q < B32
    && (q == q' || q == q' + 1)
    && 0 <= (q - 1) * d <= n
    && (q == q' + 1 <==> n - (q - 1) * d < d)
  }

  lemma LongDivision(n: UInt64, d: UInt64)
    requires B32 <= d <= n
    ensures LongQuotient(n, d) == Value(n / d)
  {
    EstimateOffByAtMostOne(n, d);
    CorrectEstimateExact(n, d, Estimate(n, d).value, n / d);
  }

  lemma CorrectEstimateExact(n: UInt64, d: UInt64, q: UInt64, q': UInt64)
    requires d > 0 && OffByAtMostOne(n, d, q, q')
    ensures CorrectEstimate(n, d, q) == q'
  {
    hide Low64;
    var m := (q - 1) * d;
    FitsUInt64(q - 1);
    FitsUInt64(m);
    FitsUInt64(n - m);
  }

  lemma QuotientUnique(n: int, d: int, q: int, r: int)
    requires 0 <= r < d && n == q * d + r
    ensures n / d == q && n % d == r
  {
    var q', r' := n / d, n % d;
    assert (q - q') * d == r' - r;
    if q > q' { MulMonotone(1, q - q', d); }
    if q < q' { MulMonotone(q - q', -1, d); }
  }

  lemma CancelFactor(a: int, b: int, k: int)
    requires k > 0 && a * k <= b * k
    ensures a <= b
  {
    if b < a { MulMonotone(b + 1, a, k); }
  }

  lemma QuotientOfQuotient(n: nat, a: nat, b: nat)
    requires a > 0 && b > 0
    ensures a * b > 0 && n / a / b == n / (a * b)
  {
    var q, r := n / a, n % a;
    var q', r' := q / b, q % b;
    assert n == q * a + r && q == q' * b + r';
    calc {
      n;
      (q' * b + r') * a + r;
      q' * (a * b) + (r' * a + r);
    }
    MulMonotone(r' + 1, b, a);
    MulMonotone(0, r', a);
    QuotientUnique(n, a * b, q', r' * a + r);
  }

  /** For every divisor above 32 bits the estimate never faults, and it is the true quotient or one
      more; `n - (q - 1) * d` does not wrap and tells the two cases apart. */
  lemma EstimateOffByAtMostOne(n: UInt64, d: UInt64)
    requires B32 <= d <= n
    ensures Estimate(n, d).Value?
    ensures OffByAtMostOne(n, d, Estimate(n, d).value, n / d)
  {
    var s := LeadingZeros(d / B32);
    HighWordBounds(d, s);
    var v, k := HighWord(d, s), Pow2(31 - s);
    NoDivideError(n / 2, v);
    EstimateIsQuotient(n, v, k);
    EstimateBounds(n, d, v * (2 * k), k);
  }

  lemma NoDivideError(m: nat, v: nat)
    requires m < B63 && v >= B32 / 2
    ensures m / v < B32
  {
    var q := m / v;
    if q >= B32 { MulMonotone(B32, q, v); }
  }

  lemma EstimateIsQuotient(n: nat, v: nat, k: nat)
    requires v > 0 && k > 0
    ensures v * (2 * k) > 0 && n / 2 / v / k == n / (v * (2 * k))
  {
    QuotientOfQuotient(n, 2, v);
    QuotientOfQuotient(n, 2 * v, k);
    assert (2 * v) * k == v * (2 * k);
  }

  /** `d` lies in `[e, e + 2k)` for the truncated divisor `e = 2vk`, where `k = 2^(31-s)`. */
  lemma HighWordBounds(d: UInt64, s: nat)
    requires B32 <= d && s == LeadingZeros(d / B32)
    ensures s <= 31 && HighWord(d, s) >= B32 / 2
    ensures var k := Pow2(31 - s); var e := HighWord(d, s) * (2 * k);
            B32 * k <= e <= d < e + 2 * k
  {
    LeadingZerosNormalise(d / B32);
    Pow2Add(s, 31 - s);
    Pow2Values();
    TruncatedDivisor(d, d / B32, Pow2(s), Pow2(31 - s));
  }

  lemma TruncatedDivisor(d: UInt64, d1: nat, p: nat, k: nat)
    requires B32 * d1 <= d < B32 * (d1 + 1) && B32 / 2 <= d1 * p < B32
    requires p > 0 && k > 0 && p * k == B32 / 2
    ensures d * p < B64
    ensures var v := d * p / B32; v >= B32 / 2 && B32 * k <= v * (2 * k) <= d < v * (2 * k) + 2 * k
  {
    var k2, dp := 2 * k, d * p;
    var v, w := dp / B32, dp % B32;
    assert k2 * p == B32;
    ShiftKeepsAllBits(d, d1, p, k2);
    ShiftSetsTopBit(d, d1, p);
    ShiftedRemainder(d, v, w, p, k2);
    MulMonotone(B32 / 2, v, k2);
  }

  lemma ShiftKeepsAllBits(d: nat, d1: nat, p: nat, k2: nat)
    requires d < B32 * (d1 + 1) && p > 0 && d1 * p < B32 && k2 * p == B32
    ensures d * p < B64
  {
    if d1 >= k2 { MulMonotone(k2, d1, p); }
    assert d + 1 <= B32 * k2;
    MulMonotone(d + 1, B32 * k2, p);
    MulAssoc(B32, k2, p);
  }

  lemma MulAssoc(a: int, b: int, c: int)
    ensures (a * b) * c == a * (b * c)
  {
  }

  lemma ShiftSetsTopBit(d: nat, d1: nat, p: nat)
    requires B32 * d1 <= d && B32 / 2 <= d1 * p
    ensures d * p / B32 >= B32 / 2
  {
    MulMonotone(B32 * d1, d, p);
    MulAssoc(B32, d1, p);
  }

  lemma ShiftedRemainder(d: nat, v: nat, w: nat, p: nat, k2: nat)
    requires d * p == v * B32 + w && w < B32 && p > 0 && k2 * p == B32
    ensures 0 <= d - v * k2 < k2
  {
    var x := d - v * k2;
    assert x * p == d * p - (v * k2) * p;
    MulAssoc(v, k2, p);
    if x < 0 { MulMonotone(x, -1, p); }
    if x >= k2 { MulMonotone(k2, x, p); }
  }

  /** With `e <= d < e + 2k` and `e >= 2^32 k`, dividing by `e` overshoots by at most one. */
  lemma EstimateBounds(n: UInt64, d: UInt64, e: nat, k: nat)
    requires 0 < k && B32 * k <= e <= d < e + 2 * k && d <= n
    ensures OffByAtMostOne(n, d, n / e, n / d)
  {
    var q, q' := n / e, n / d;
    QuotientBounds(n, e);
    QuotientBounds(n, d);
    EstimateNotBelow(n, d, e);
    EstimateSmall(n, e, k);
    OvershootSmall(d, e, k, q);
    assert (q - 1) * d == q * e + q * (d - e) - d;
    ClassifyEstimate(n, d, q, q');
  }

  lemma QuotientBounds(n: nat, d: nat)
    requires 0 < d
    ensures (n / d) * d <= n < (n / d) * d + d
  {
  }

  lemma EstimateNotBelow(n: nat, d: nat, e: nat)
    requires 0 < e <= d
    ensures n / d <= n / e
  {
    var q, q' := n / e, n / d;
    if q < q' {
      MulMonotone(q + 1, q', d);
      MulMonotone(e, d, q + 1);
    }
  }

  lemma EstimateSmall(n: UInt64, e: nat, k: nat)
    requires 0 < k && B32 * k <= e
    ensures (n / e) * k < B32
  {
    var q := n / e;
    QuotientBounds(n, e);
    MulMonotone(B32 * k, e, q);
    MulAssoc(B32, k, q);
    assert q * k == k * q;
  }

  lemma OvershootSmall(d: nat, e: nat, k: nat, q: nat)
    requires 0 < k && B32 * k <= e <= d < e + 2 * k && q * k < B32
    ensures q * (d - e) <= d && q < B32
  {
    MulMonotone(1, k, q);
    MulMonotone(d - e, 2 * k - 1, q);
    SlackProduct(q, k);
  }

  lemma SlackProduct(q: nat, k: nat)
    requires 0 < k && q * k < B32
    ensures q * (2 * k - 1) <= B32 * k
  {
    MulMonotone(q * k, B32, 2 * k - 1);
    assert (q * (2 * k - 1)) * k == (q * k) * (2 * k - 1);
    assert 2 * k - 1 <= k * k by { assert (k - 1) * (k - 1) >= 0; }
    MulMonotone(2 * k - 1, k * k, B32);
    assert B32 * (k * k) == (B32 * k) * k;
    CancelFactor(q * (2 * k - 1), B32 * k, k);
  }

  lemma ClassifyEstimate(n: nat, d: nat, q: nat, q': nat)
    requires 0 < d <= n && q' * d <= n < q' * d + d
    requires q' <= q < B32 && (q - 1) * d <= n
    ensures OffByAtMostOne(n, d, q, q')
  {
    if q' <= 0 { MulMonotone(q', 0, d); }
    if q >= q' + 2 { MulMonotone(q' + 1, q - 1, d); }
    assert 0 <= (q - 1) * d by { MulMonotone(0, q - 1, d); }
    if q == q' { assert (q - 1) * d == q' * d - d; } else { assert (q - 1) * d == q' * d; }
  }

  /** `umod64`: the 64-bit remainder, truncated to the 32-bit return type. */
  function UMod64(n: UInt64, d: UInt64): Outcome<UInt32> {
    match UDiv64(n, d)
    case DivideError => DivideError
    case Value(q) => Value(Low32(Low64(n - Low64(d * q))))
  }

  lemma UMod64Truncates(n: UInt64, d: UInt64)
    requires d != 0
    ensures UMod64(n, d) == Value(Low32(n % d))
  {
    hide UDiv64, Low64;
    UDiv64Exact(n, d);
    RemainderOf(n, d);
    FitsUInt64(d * (n / d));
    FitsUInt64(n % d);
  }

  lemma RemainderOf(n: nat, d: nat)
    requires d != 0
    ensures 0 <= d * (n / d) <= n && n - d * (n / d) == n % d < d
  {
    MulMonotone(0, n / d, d);
  }

  lemma UMod64Small(n: UInt64, d: UInt64)
    requires 0 < d <= B32
    ensures UMod64(n, d) == Value(n % d)
  {
    hide UMod64;
    UMod64Truncates(n, d);
    RemainderOf(n, d);
  }

  lemma UMod64Large(d: UInt64)
    requires d > B32
    ensures UMod64(B32, d) == Value(0) && B32 % d == B32
  {
    hide UMod64;
    UMod64Truncates(B32, d);
    QuotientUnique(B32, d, 0, B32);
  }

  /** The 32-bit return type of `umod64` loses no remainder exactly for divisors up to 2^32. */
  lemma UMod64FaithfulIff(d: UInt64)
    requires d != 0
    ensures d <= B32 <==> forall n: UInt64 :: UMod64(n, d) == Value(n % d)
  {
    hide UMod64;
    if d <= B32 {
      forall n: UInt64 ensures UMod64(n, d) == Value(n % d) {
        UMod64Small(n, d);
      }
    } else {
      UMod64Large(d);
    }
  }

  /** The magnitude `n >= 0 ? (uint64_t) n : -(uint64_t) n`. */
  function Magnitude(n: Int64): (m: UInt64)
    ensures m == Abs(n)
  {
    if n >= 0 then n else Low64(0 - Low64(n))
  }

  /** `sdiv64`: divide magnitudes, then restore the sign, in two's complement. */
  function SDiv64(n: Int64, d: Int64): Outcome<Int64> {
    match UDiv64(Magnitude(n), Magnitude(d))
    case DivideError => DivideError
    case Value(q) => Value(RestoreSign(n, d, q))
  }

  function RestoreSign(n: Int64, d: Int64, q: UInt64): Int64 {
    if (n < 0) == (d < 0) then Signed64(q) else Signed64(0 - Signed64(q))
  }

  /** `sdiv64` truncates toward zero for every pair but the one whose quotient does not fit. */
  lemma SDiv64TruncatesIff(n: Int64, d: Int64)
    ensures d == 0 ==> SDiv64(n, d) == DivideError
    ensures d != 0 ==> SDiv64(n, d) == Value(Signed64(Truncated(n, d)))
    ensures d != 0 ==> (SDiv64(n, d) == Value(Truncated(n, d)) <==> !(n == -B63 && d == -1))
  {
    hide UDiv64;
    UDiv64Exact(Abs(n), Abs(d));
    if d != 0 {
      MagnitudeRange(Abs(n), Abs(d));
      RestoreSignExact(n, d, Abs(n) / Abs(d));
    }
  }

  lemma MagnitudeRange(a: nat, b: nat)
    requires a <= B63 && b > 0
    ensures 0 <= a / b <= B63
    ensures a / b == B63 <==> a == B63 && b == 1
  {
    var q := a / b;
    QuotientBounds(a, b);
    if b >= 2 { MulMonotone(2, b, q); }
  }

  lemma RestoreSignExact(n: Int64, d: Int64, q: UInt64)
    requires q <= B63
    ensures var t := WithSign((n < 0) != (d < 0), q);
            RestoreSign(n, d, q) == Signed64(t) && (Signed64(t) == t <==> t != B63)
  {
  }

  /** The remainder C promises, `n - d * (n / d)` for the truncated quotient. */
  function TruncatedRemainder(n: int, d: int): (r: int)
    requires d != 0
  {
    WithSign(n < 0, Abs(n) % Abs(d))
  }

  /** It has the sign of `n`, is smaller than `d` in magnitude, and completes the quotient. */
  lemma TruncatedRemainderCompletes(n: int, d: int)
    requires d != 0
    ensures d * Truncated(n, d) + TruncatedRemainder(n, d) == n
    ensures Abs(TruncatedRemainder(n, d)) < Abs(d) && Abs(TruncatedRemainder(n, d)) <= Abs(n)
    ensures (n >= 0 ==> TruncatedRemainder(n, d) >= 0) && (n <= 0 ==> TruncatedRemainder(n, d) <= 0)
  {
    var q := Abs(n) / Abs(d);
    RemainderOf(Abs(n), Abs(d));
    assert d * -q == -(d * q) && (-d) * q == -(d * q);
  }

  /** `smod64`: the remainder, truncated to a signed 32-bit return type. */
  function SMod64(n: Int64, d: Int64): Outcome<Int32> {
    match SDiv64(n, d)
    case DivideError => DivideError
    case Value(q) => Value(Signed32(Residue(n, d, q)))
  }

  function Residue(n: Int64, d: Int64, q: Int64): Int64 { Signed64(n - Signed64(d * q)) }

  /** Even for the one quotient that overflows, the remainder is right before it is cut to 32 bits. */
  lemma SMod64Truncates(n: Int64, d: Int64)
    requires d != 0
    ensures SMod64(n, d) == Value(Signed32(TruncatedRemainder(n, d)))
  {
    hide SDiv64;
    SDiv64TruncatesIff(n, d);
    if n == -B63 && d == -1 {
      assert SDiv64(n, d) == Value(n);
      assert Residue(n, d, n) == 0;
    } else {
      var t, r := Truncated(n, d), TruncatedRemainder(n, d);
      TruncatedRemainderCompletes(n, d);
      ResidueExact(n, d, t, r);
    }
  }

  lemma ResidueExact(n: Int64, d: Int64, t: Int64, r: int)
    requires d * t + r == n && (r == 0 || (r < 0 <==> n < 0)) && Abs(r) <= Abs(n)
    ensures Residue(n, d, t) == r
  {
    FitsInt64(d * t);
    FitsInt64(r);
  }

  lemma FitsInt64(x: int)
    requires -B63 <= x < B63
    ensures Signed64(x) == x
  {
  }

  lemma SMod64Small(n: Int64, d: Int64)
    requires d != 0 && Abs(d) <= B32 / 2
    ensures SMod64(n, d) == Value(TruncatedRemainder(n, d))
  {
    hide SMod64, TruncatedRemainder, Truncated;
    SMod64Truncates(n, d);
    TruncatedRemainderCompletes(n, d);
  }

  lemma SMod64Large(d: Int64)
    requires Abs(d) > B32 / 2
    ensures SMod64(B32 / 2, d) == Value(-(B32 / 2)) && TruncatedRemainder(B32 / 2, d) == B32 / 2
  {
    hide SMod64;
    SMod64Truncates(B32 / 2, d);
    QuotientUnique(B32 / 2, Abs(d), 0, B32 / 2);
  }

  /** The 32-bit return type of `smod64` loses no remainder exactly for divisors up to 2^31 in magnitude. */
  lemma SMod64FaithfulIff(d: Int64)
    requires d != 0
    ensures Abs(d) <= B32 / 2 <==> forall n: Int64 :: SMod64(n, d) == Value(TruncatedRemainder(n, d))
  {
    hide SMod64, TruncatedRemainder;
    if Abs(d) <= B32 / 2 {
      forall n: Int64 ensures SMod64(n, d) == Value(TruncatedRemainder(n, d)) { SMod64Small(n, d); }
    } else {
      SMod64Large(d);
    }
  }
}
