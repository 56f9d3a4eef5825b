/** The 64-bit division routines of lib/arithmetic.c, built on the x86 DIVL instruction that
    divides 64 bits by 32 and traps when the quotient does not fit in 32 bits. */
module Arithmetic {
  import opened Bits
  import opened Nonlinear

  type Word32 = x: int | 0 <= x < 0x1_0000_0000
  type Word64 = x: int | 0 <= x < 0x1_0000_0000_0000_0000
  type Int64 = x: int | -0x8000_0000_0000_0000 <= x < 0x8000_0000_0000_0000

  /** A divide error, or a value. */
  datatype Outcome<T> = DivideError | Value(value: T)

  function Wrap64(x: int): Word64 {
    x % 0x1_0000_0000_0000_0000
  }

  /** The quotient rounded down, which again fits a word. */
  function Quotient(n: Word64, d: Word64): (q: Word64)
    requires d != 0
    ensures q <= n
  {
    QuotientAtMost(n, d);
    n / d
  }

  /** The DIVL instruction, by its documented contract. */
  function Divl(n: Word64, d: Word32): Outcome<Word32> {
    if d == 0 || n / d >= 0x1_0000_0000 then DivideError else Value(n / d)
  }

  /** The number of leading zero bits, by halving the range that can hold them. */
  method Nlz(x: Word32) returns (n: nat)
    requires x != 0
    ensures n < 32 && 0x8000_0000 <= x * Pow2(n) < 0x1_0000_0000
  {
    Pow2Small();
    n := 0;
    var y: Word32 := x;
    if y <= 0x0000_FFFF {
      ShiftMore(x, n, y, 16, 0x1_0000);
      n, y := n + 16, y * 0x1_0000;
    }
    if y <= 0x00FF_FFFF {
      ShiftMore(x, n, y, 8, 0x100);
      n, y := n + 8, y * 0x100;
    }
    if y <= 0x0FFF_FFFF {
      ShiftMore(x, n, y, 4, 0x10);
      n, y := n + 4, y * 0x10;
    }
    if y <= 0x3FFF_FFFF {
      ShiftMore(x, n, y, 2, 4);
      n, y := n + 2, y * 4;
    }
    if y <= 0x7FFF_FFFF {
      ShiftMore(x, n, y, 1, 2);
      n := n + 1;
    }
  }

  /** Long division in base 2^32, with a one-word divisor. */
  lemma NarrowDivision(n: Word64, d: Word32)
    requires d != 0
    ensures var n1, n0 := n / 0x1_0000_0000, n % 0x1_0000_0000;
            && 0 <= 0x1_0000_0000 * (n1 % d) + n0 < 0x1_0000_0000_0000_0000
            && (0x1_0000_0000 * (n1 % d) + n0) / d < 0x1_0000_0000
            && n / d == (0x1_0000_0000 * (n1 % d) + n0) / d + 0x1_0000_0000 * (n1 / d)
  {
    var n1, n0 := n / 0x1_0000_0000, n % 0x1_0000_0000;
    var m := 0x1_0000_0000 * (n1 % d) + n0;
    var q := m / d + 0x1_0000_0000 * (n1 / d);
    QuotientBounds(m, d);
    assert n1 == n1 / d * d + n1 % d;
    assert q * d == m / d * d + 0x1_0000_0000 * (n1 / d * d);
    QuotientIs(n, d, q);
    if m / d >= 0x1_0000_0000 {
      MulAtMost(0x1_0000_0000, m / d, d);
    }
  }

  /** Dividing by a slightly smaller `w` instead of `d` makes the quotient at most one too large. */
  lemma QuotientEstimate(n: int, d: int, w: int)
    requires 0 <= n && 0 < w <= d && n * (d - w) < w * d
    ensures n / d <= n / w <= n / d + 1
  {
    var q, Q := n / w, n / d;
    QuotientBounds(n, w);
    QuotientBounds(n, d);
    if q < Q {
      MulAtMost(q + 1, Q, w);
      MulAtMost(w, d, Q);
      assert false;
    }
    if q > Q + 1 {
      MulAtMost(Q + 2, q, w);
      MulAtMost((Q + 2) * w, n, d);
      assert n * d < w * (n + d) by {
        assert n * d == n * (d - w) + n * w && w * (n + d) == n * w + w * d;
      }
      assert n + d < (Q + 2) * d;
      MulAtMost(n + d, (Q + 2) * d, w);
      assert false;
    }
  }

  /** The divisor `d` shifted left by `s`, so that its top bit is set. `P` is 2^s and `R` is
      2^(32-s). */
  ghost predicate Normalized(d: int, P: int, R: int) {
    && 0x1_0000_0000 <= d && 1 <= P && 2 <= R && P * R == 0x1_0000_0000
    && 0x8000_0000 <= d / 0x1_0000_0000 * P < 0x1_0000_0000
  }

  lemma ShiftedFits(d: int, P: int, R: int)
    requires Normalized(d, P, R)
    ensures 0x8000_0000_0000_0000 <= d * P < 0x1_0000_0000_0000_0000
  {
    var d1 := d / 0x1_0000_0000;
    if d1 >= R {
      MulAtMost(R, d1, P);
    }
    MulAtMost(d1 + 1, R, P);
    MulLess(d, (d1 + 1) * 0x1_0000_0000, P);
    MulAtMost(d1 * 0x1_0000_0000, d, P);
    assert (d1 + 1) * 0x1_0000_0000 * P == (d1 + 1) * P * 0x1_0000_0000;
    assert d1 * 0x1_0000_0000 * P == d1 * P * 0x1_0000_0000;
  }

  /** Scaled back, the upper word `v` of the shifted divisor is below the divisor by less than `R`. */
  lemma ScaledBack(d: int, P: int, R: int, v: int)
    requires 0 < P && 0 < R && P * R == 0x1_0000_0000
    requires v * 0x1_0000_0000 <= d * P < v * 0x1_0000_0000 + 0x1_0000_0000
    ensures v * R <= d < v * R + R
  {
    assert v * R * P == v * 0x1_0000_0000;
    assert (v * R + R) * P == v * 0x1_0000_0000 + 0x1_0000_0000;
    if d < v * R {
      MulLess(d, v * R, P);
    } else if d >= v * R + R {
      MulAtMost(v * R + R, d, P);
    }
  }

  lemma EstimateClose(n: Word64, d: int, v: int, R: int)
    requires 2 <= R && 0x8000_0000 <= v && v * R <= d < v * R + R
    ensures n * (d - v * R) < v * R * d
  {
    var w, e := v * R, d - v * R;
    MulAtMost(0x8000_0000, v, R);
    assert n * e <= 0x1_0000_0000_0000_0000 * (R - 1) by {
      MulAtMost(n, 0x1_0000_0000_0000_0000, e);
      MulAtMost(e, R - 1, 0x1_0000_0000_0000_0000);
    }
    assert 4 * (R - 1) <= R * R by {
      assert (R - 2) * (R - 2) >= 0;
      assert (R - 2) * (R - 2) == R * R - 4 * R + 4;
    }
    assert 0x8000_0000 * R * (0x8000_0000 * R) <= w * d by {
      MulAtMost(0x8000_0000 * R, w, 0x8000_0000 * R);
      MulAtMost(0x8000_0000 * R, d, w);
    }
    assert 0x8000_0000 * R * (0x8000_0000 * R) == 0x4000_0000_0000_0000 * (R * R);
    if e == 0 {
      MulLess(0, w, d);
    } else {
      MulLess(n, 0x1_0000_0000_0000_0000, e);
      assert n * e < 0x1_0000_0000_0000_0000 * e;
      MulAtMost(e, R - 1, 0x1_0000_0000_0000_0000);
    }
  }

  /** The estimate of the wide branch is the quotient or one more, and DIVL does not trap. */
  lemma WideEstimate(n: Word64, d: Word64, P: int, R: int, H: int)
    requires Normalized(d, P, R) && R == 2 * H
    ensures 0 <= d * P < 0x1_0000_0000_0000_0000
    ensures var v := d * P / 0x1_0000_0000;
            && 0x8000_0000 <= v < 0x1_0000_0000
            && n / 2 / v < 0x1_0000_0000
            && n / d <= n / 2 / v / H <= n / d + 1
  {
    ShiftedFits(d, P, R);
    var v := d * P / 0x1_0000_0000;
    ScaledBack(d, P, R, v);
    EstimateClose(n, d, v, R);
    MulLess(0, v, R);
    QuotientEstimate(n, d, v * R);
    QuotientThrice(n, v, H);
    HalfQuotientFits(n, v);
  }

  lemma QuotientThrice(n: int, v: int, H: int)
    requires 0 < v && 0 < H
    ensures v * (2 * H) > 0 && n / 2 / v / H == n / (v * (2 * H))
  {
    QuotientTwice(n, 2, v);
    QuotientTwice(n, 2 * v, H);
    assert 2 * v * H == v * (2 * H);
  }

  lemma HalfQuotientFits(n: Word64, v: int)
    requires 0x8000_0000 <= v
    ensures 0 <= n / 2 / v < 0x1_0000_0000
  {
    QuotientBounds(n / 2, v);
    if n / 2 / v >= 0x1_0000_0000 {
      MulAtMost(0x1_0000_0000, n / 2 / v, v);
    }
  }

  /** Divides half of `n` by the upper word of the shifted divisor, and shifts the result back. */
  function Estimate(n: Word64, d: Word64, P: nat, H: nat): Outcome<Word64>
    requires H > 0
  {
    var e := Divl(n / 2, Wrap64(d * P) / 0x1_0000_0000);
    if e.DivideError? then DivideError
    else
      QuotientAtMost(e.value, H);
      Value(e.value / H)
  }

  lemma EstimateIsClose(n: Word64, d: Word64, P: nat, R: nat, H: nat)
    requires Normalized(d, P, R) && R == 2 * H
    ensures Estimate(n, d, P, H).Value?
    ensures n / d <= Estimate(n, d, P, H).value <= n / d + 1
  {
    WideEstimate(n, d, P, R, H);
  }

  /** Comparing what the smaller candidate leaves with the divisor. */
  function Pick(n: Word64, d: Word64, q: Word64): Word64 {
    if Wrap64(n - Wrap64(q - 1) * d) < d then Wrap64(q - 1) else q
  }

  /** It picks the quotient, although the arithmetic wraps around. */
  lemma PickIsQuotient(n: Word64, d: Word64, q: Word64)
    requires 0 < d <= n && n / d <= q <= n / d + 1
    ensures Pick(n, d, q) == n / d
  {
    QuotientBounds(n, d);
    if n / d < 1 {
      MulAtMost(n / d, 0, d);
    }
    assert (q - 1) * d == q * d - d;
    MulAtMost(0, q - 1, d);
    assert 0 <= n - (q - 1) * d < 0x1_0000_0000_0000_0000 by {
      MulAtMost(q - 1, n / d, d);
    }
  }

  lemma NormalizedBy(d: Word64, s: nat)
    requires 0x1_0000_0000 <= d && s < 32 && 0x8000_0000 <= d / 0x1_0000_0000 * Pow2(s) < 0x1_0000_0000
    ensures Normalized(d, Pow2(s), Pow2(32 - s)) && Pow2(32 - s) == 2 * Pow2(31 - s)
  {
    Pow2Large();
    Pow2Sum(s, 32 - s);
  }

  /** The branch for a divisor of one word: long division, with `n1` and `n0` the words of `n`. */
  function Narrow(n1: Word32, n0: Word32, d: Word32): Outcome<Word64>
    requires d != 0
  {
    var q := Divl(Wrap64(0x1_0000_0000 * (n1 % d) + n0), d);
    if q.DivideError? then DivideError else Value(Wrap64(q.value + 0x1_0000_0000 * (n1 / d)))
  }

  lemma NarrowIsQuotient(n: Word64, d: Word32)
    requires d != 0
    ensures Narrow(n / 0x1_0000_0000, n % 0x1_0000_0000, d) == Value(Quotient(n, d))
  {
    var n1, n0: Word32 := n / 0x1_0000_0000, n % 0x1_0000_0000;
    var m := 0x1_0000_0000 * (n1 % d) + n0;
    NarrowDivision(n, d);
    QuotientAtMost(n, d);
    WrapSmall(m);
    assert m / d >= 0 by { QuotientAtMost(m, d); }
    assert Divl(m, d) == Value(m / d);
    WrapSmall(m / d + 0x1_0000_0000 * (n1 / d));
  }

  lemma WrapSmall(x: int)
    requires 0 <= x < 0x1_0000_0000_0000_0000
    ensures Wrap64(x) == x
  {
  }

  /** The branch for a divisor of two words. */
  method DivideWide(n: Word64, d: Word64) returns (r: Outcome<Word64>)
    requires 0x1_0000_0000 <= d <= n
    ensures r == Value(Quotient(n, d))
  {
    var s := Nlz(d / 0x1_0000_0000);
    NormalizedBy(d, s);
    var e := Estimate(n, d, Pow2(s), Pow2(31 - s));
    EstimateIsClose(n, d, Pow2(s), Pow2(32 - s), Pow2(31 - s));
    if e.DivideError? {
      return DivideError;
    }
    PickIsQuotient(n, d, e.value);
    r := Value(Pick(n, d, e.value));
  }

  /** Unsigned 64-bit division: exact, and without a divide error, for every nonzero divisor. */
  method UDiv64(n: Word64, d: Word64) returns (r: Outcome<Word64>)
    ensures r == if d == 0 then DivideError else Value(Quotient(n, d))
  {
    if d / 0x1_0000_0000 == 0 {
      if d == 0 {
        return DivideError;
      }
      NarrowIsQuotient(n, d);
      r := Narrow(n / 0x1_0000_0000, n % 0x1_0000_0000, d);
    } else if n < d {
      QuotientIs(n, d, 0);
      r := Value(0);
    } else {
      r := DivideWide(n, d);
    }
  }

  // ---------- Remainders and signed division ----------

  /** The unsigned remainder cut to 32 bits, which is what the source's return type keeps. */
  function CutRemainder(n: Word64, d: Word64): Word32
    requires d != 0
  {
    n % d % 0x1_0000_0000
  }

  method UMod64(n: Word64, d: Word64) returns (r: Outcome<Word32>)
    ensures r == if d == 0 then DivideError else Value(CutRemainder(n, d))
  {
    var q := UDiv64(n, d);
    if q.DivideError? {
      return DivideError;
    }
    RemainderOf(n, d);
    r := Value(Wrap64(n - d * q.value) % 0x1_0000_0000);
  }

  lemma RemainderOf(n: Word64, d: Word64)
    requires d != 0
    ensures n - d * Quotient(n, d) == n % d && 0 <= n % d < 0x1_0000_0000_0000_0000
  {
    assert n == n / d * d + n % d;
    assert d * (n / d) == n / d * d;
  }

  /** The unsigned remainder is exact for every dividend just when the divisor is at most 2^32. */
  lemma UModExactIff(d: Word64)
    requires d != 0
    ensures (forall n: Word64 :: CutRemainder(n, d) == n % d) <==> d <= 0x1_0000_0000
  {
    if d > 0x1_0000_0000 {
      var n: Word64 := d - 1;
      assert n % d == n by { QuotientIs(n, d, 0); }
      assert CutRemainder(n, d) != n % d;
    }
  }

  function Magnitude(x: int): nat {
    if x < 0 then -x else x
  }

  /** Section 6.5.5 of C99: `q` is the quotient of `n` by `d` with its fraction discarded, so that
      the remainder is smaller than the divisor and has the sign of the dividend. */
  predicate Truncates(n: int, d: int, q: int) {
    var r := n - q * d;
    Magnitude(r) < Magnitude(d) && (r == 0 || (r < 0 <==> n < 0))
  }

  lemma TruncationUnique(n: int, d: int, p: int, q: int)
    requires Truncates(n, d, p) && Truncates(n, d, q)
    ensures p == q
  {
    assert (p - q) * d == (n - q * d) - (n - p * d);
    if p < q {
      MulAtMost(p - q, -1, Magnitude(d));
    } else if q < p {
      MulAtMost(1, p - q, Magnitude(d));
    }
  }

  function ToInt64(x: int): Int64 {
    (x + 0x8000_0000_0000_0000) % 0x1_0000_0000_0000_0000 - 0x8000_0000_0000_0000
  }

  type Int32 = x: int | -0x8000_0000 <= x < 0x8000_0000

  function ToInt32(x: int): Int32 {
    (x + 0x8000_0000) % 0x1_0000_0000 - 0x8000_0000
  }

  lemma SignedQuotient(n: int, d: int)
    requires d != 0
    ensures var a := Magnitude(n) / Magnitude(d);
            0 <= a <= Magnitude(n) && Truncates(n, d, if (n < 0) == (d < 0) then a else -a)
  {
    var a := Magnitude(n) / Magnitude(d);
    QuotientAtMost(Magnitude(n), Magnitude(d));
    QuotientBounds(Magnitude(n), Magnitude(d));
    ProductSign(a, d);
  }

  lemma ProductSign(a: int, d: int)
    ensures (-a) * d == -(a * d) && a * (-d) == -(a * d)
  {
  }

  /** Signed division truncates toward zero; only the most negative dividend by -1 wraps around. */
  method SDiv64(n: Int64, d: Int64) returns (r: Outcome<Int64>)
    ensures r.DivideError? <==> d == 0
    ensures d != 0 && !(n == -0x8000_0000_0000_0000 && d == -1) ==> Truncates(n, d, r.value)
    ensures n == -0x8000_0000_0000_0000 && d == -1 ==> r == Value(n)
  {
    var q := UDiv64(AsMagnitude(n), AsMagnitude(d));
    if q.DivideError? {
      return DivideError;
    }
    SignedQuotient(n, d);
    if q.value == 0x8000_0000_0000_0000 {
      LargestQuotient(n, d);
    }
    r := Value(Signed((n < 0) == (d < 0), q.value));
  }

  /** The source's unsigned negation of a negative operand. */
  function AsMagnitude(x: Int64): (m: Word64)
    ensures m == Magnitude(x)
  {
    if x >= 0 then x else Wrap64(-(x as int))
  }

  /** Gives the unsigned quotient its sign, with the casts of the source. */
  function Signed(positive: bool, q: Word64): (r: Int64)
    ensures q < 0x8000_0000_0000_0000 ==> r == if positive then q else -(q as int)
    ensures q == 0x8000_0000_0000_0000 ==> r == -0x8000_0000_0000_0000
  {
    if positive then ToInt64(q) else ToInt64(-(ToInt64(q) as int))
  }

  lemma LargestQuotient(n: Int64, d: Int64)
    requires d != 0 && Magnitude(n) / Magnitude(d) == 0x8000_0000_0000_0000
    ensures n == -0x8000_0000_0000_0000 && (d == 1 || d == -1)
  {
    QuotientBounds(Magnitude(n), Magnitude(d));
    if Magnitude(d) >= 2 {
      MulAtMost(2, Magnitude(d), 0x8000_0000_0000_0000);
    }
  }

  method SMod64(n: Int64, d: Int64) returns (r: Outcome<Int32>)
    ensures r.DivideError? <==> d == 0
    ensures forall q | d != 0 && Truncates(n, d, q) :: r == Value(ToInt32(n - q * d))
  {
    var s := SDiv64(n, d);
    if s.DivideError? {
      return DivideError;
    }
    r := Value(ToInt32(ToInt64(n - d * s.value)));
    forall q | Truncates(n, d, q)
      ensures r == Value(ToInt32(n - q * d))
    {
      CastRemainder(n, d, s.value, q);
    }
  }

  lemma CastRemainder(n: Int64, d: Int64, s: int, q: int)
    requires Truncates(n, d, q)
    requires Truncates(n, d, s) || (n == -0x8000_0000_0000_0000 && d == -1 && s == n)
    ensures ToInt64(n - d * s) == n - q * d
  {
    if n == -0x8000_0000_0000_0000 && d == -1 && s == n {
      assert Truncates(n, d, 0x8000_0000_0000_0000);
      TruncationUnique(n, d, q, 0x8000_0000_0000_0000);
    } else {
      TruncationUnique(n, d, q, s);
      assert d * s == q * d;
    }
  }

  /** The signed remainder is exact for every dividend just when the divisor's magnitude is at
      most 2^31. */
  lemma SModExactIff(d: Int64)
    requires d != 0
    ensures (forall n: Int64, q | Truncates(n, d, q) :: ToInt32(n - q * d) == n - q * d)
            <==> Magnitude(d) <= 0x8000_0000
  {
    if Magnitude(d) > 0x8000_0000 {
      var n: Int64 := Magnitude(d) - 1;
      assert Truncates(n, d, 0);
      assert ToInt32(n - 0 * d) != n;
    }
  }
}
