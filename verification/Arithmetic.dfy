/**
 64-bit division built from the x86 64-by-32 divide (src/lib/arithmetic.c).

 Machine integers are modelled as bounded mathematical integers; every place
 where the C code can wrap, truncate or trap is written out.
 */
module Arithmetic {


  type U32 = x: int | 0 <= x < 0x1_0000_0000
  type U64 = x: int | 0 <= x < 0x1_0000_0000_0000_0000
  type I32 = x: int | -0x8000_0000 <= x < 0x8000_0000
  type I64 = x: int | -0x8000_0000_0000_0000 <= x < 0x8000_0000_0000_0000

  /** What a computation that may raise the divide-error exception yields. */
  datatype Outcome<T> = Done(value: T) | DivideError

  function Pow2(k: nat): (r: nat)
    ensures r >= 1
  {
    if k == 0 then 1 else 2 * Pow2(k - 1)
  }

  /** Left shift without truncation. */
  function Shl(x: nat, n: nat): (r: nat)
  {
    if n == 0 then x else 2 * Shl(x, n - 1)
  }

  /** Two's-complement reading of an unsigned 64-bit pattern. */
  function Signed64(x: U64): (r: I64)
  {
    if x < 0x8000_0000_0000_0000 then x else x - 0x1_0000_0000_0000_0000
  }

  /** Two's-complement reading of the low 32 bits of any integer. */
  function Signed32(x: int): (r: I32)
  {
    var low := x % 0x1_0000_0000;
    if low < 0x8000_0000 then low else low - 0x1_0000_0000
  }

  /** C's signed division: truncation toward zero. */
  function TruncDiv(n: int, d: int): int
    requires d != 0
  {
    var q := Abs(n) / Abs(d);
    if (n < 0) == (d < 0) then q else -q
  }

  function Abs(x: int): (r: nat)
  {
    if x < 0 then -x else x
  }

  // ----- powers of two -----

  lemma {:induction false} Pow2Add(i: nat, j: nat)
    ensures Pow2(i + j) == Pow2(i) * Pow2(j)
  {
    if i > 0 {
      Pow2Add(i - 1, j);
      MulAssoc(2, Pow2(i - 1), Pow2(j));
    }
  }

  lemma {:induction false} ShlIsMultiplication(x: nat, n: nat)
    ensures Shl(x, n) == x * Pow2(n)
  {
    if n > 0 {
      ShlIsMultiplication(x, n - 1);
      MulAssoc(2, x, Pow2(n - 1));
      MulAssoc(x, 2, Pow2(n - 1));
    }
  }

  lemma Pow2Values()
    ensures Pow2(1) == 2 && Pow2(2) == 4 && Pow2(4) == 16 && Pow2(8) == 256 && Pow2(16) == 65536
    ensures Pow2(31) == 0x8000_0000 && Pow2(32) == 0x1_0000_0000
  {
    Pow2Add(1, 1);
    Pow2Add(2, 2);
    Pow2Add(4, 4);
    Pow2Add(8, 8);
    Pow2Add(16, 16);
  }

  // ----- the machine instruction -----

  /** `divl`: the quotient of a 64-bit by a 32-bit number; it traps when the
      divisor is zero or the quotient needs more than 32 bits. */
  function Divl(n: U64, d: U32): (r: Outcome<U32>)
    ensures r.Done? <==> d != 0 && n < d * 0x1_0000_0000
    ensures r.Done? ==> r.value * d <= n < r.value * d + d
  {
    if d == 0 then DivideError
    else
      var q := n / d;
      assert q * d <= n < q * d + d;
      if q < 0x1_0000_0000 then
        assert n < d * 0x1_0000_0000 by { MulMono(q + 1, 0x1_0000_0000, d); }
        Done(q)
      else
        assert n >= d * 0x1_0000_0000 by { MulMono(0x1_0000_0000, q, d); }
        DivideError
  }

  lemma MulAssoc(a: int, b: int, c: int)
    ensures a * (b * c) == (a * b) * c
  {
  }

  lemma MulMono(a: int, b: int, c: nat)
    requires a <= b
    ensures a * c <= b * c
  {
  }

  /** Counts leading zeros by halving: the result is the unique shift that puts
      the top set bit in position 31.  Each `x * m` is the C shift; `x` being a
      U32 shows that no bit is shifted out. */
  method Nlz(x0: U32) returns (n: nat)
    requires x0 != 0
    ensures n <= 31
    ensures 0x8000_0000 <= Shl(x0, n) < 0x1_0000_0000
  {
    n := 0;
    var x: U32 := x0;
    if x <= 0x0000_FFFF {
      assert Shl(x0, n + 16) == x * 65536 by { Shifts(x0, n); }
      n, x := n + 16, x * 65536;
    }
    assert x == Shl(x0, n) && n <= 16 && x > 0x0000_FFFF;
    if x <= 0x00FF_FFFF {
      assert Shl(x0, n + 8) == x * 256 by { Shifts(x0, n); }
      n, x := n + 8, x * 256;
    }
    assert x == Shl(x0, n) && n <= 24 && x > 0x00FF_FFFF;
    if x <= 0x0FFF_FFFF {
      assert Shl(x0, n + 4) == x * 16 by { Shifts(x0, n); }
      n, x := n + 4, x * 16;
    }
    assert x == Shl(x0, n) && n <= 28 && x > 0x0FFF_FFFF;
    if x <= 0x3FFF_FFFF {
      assert Shl(x0, n + 2) == x * 4 by { Shifts(x0, n); }
      n, x := n + 2, x * 4;
    }
    assert x == Shl(x0, n) && n <= 30 && x > 0x3FFF_FFFF;
    if x <= 0x7FFF_FFFF {
      assert Shl(x0, n + 1) == x * 2 by { Shifts(x0, n); }
      n := n + 1;
    }
  }

  /** The shift distances of `Nlz`. */
  lemma Shifts(x: nat, n: nat)
    ensures Shl(x, n + 1) == Shl(x, n) * 2 && Shl(x, n + 2) == Shl(x, n) * 4
    ensures Shl(x, n + 4) == Shl(x, n) * 16 && Shl(x, n + 8) == Shl(x, n) * 256
    ensures Shl(x, n + 16) == Shl(x, n) * 65536
  {
    Shifts4(x, n);
    Shifts4(x, n + 4);
    Shifts4(x, n + 8);
    Shifts4(x, n + 12);
  }

  lemma Shifts4(x: nat, n: nat)
    ensures Shl(x, n + 1) == Shl(x, n) * 2 && Shl(x, n + 2) == Shl(x, n) * 4
    ensures Shl(x, n + 4) == Shl(x, n) * 16
  {
    assert Shl(x, n + 2) == 2 * Shl(x, n + 1);
    assert Shl(x, n + 3) == 2 * Shl(x, n + 2);
  }

  // ----- the estimate -----

  /** Two successive floors are one floor of the product. */
  lemma DivDiv(n: nat, a: nat, b: nat)
    requires a > 0 && b > 0
    ensures a * b > 0 && (n / a) / b == n / (a * b)
  {
    var q, r2, r1 := (n / a) / b, (n / a) % b, n % a;
    assert n == a * (n / a) + r1;
    Nested(a, b, q, r2, r1);
    assert a * b > 0 && 0 <= a * r2 + r1 < a * b by {
      MulMono(r2 + 1, b, a);
      assert a * (r2 + 1) == a * r2 + a;
    }
    QuotientUnique(n, a * b, q, a * r2 + r1);
  }

  lemma Nested(a: int, b: int, q: int, r2: int, r1: int)
    ensures a * (b * q + r2) + r1 == (a * b) * q + (a * r2 + r1)
  {
    MulAssoc(a, b, q);
    assert a * (b * q + r2) == a * (b * q) + a * r2;
  }

  lemma QuotientUnique(n: int, d: int, q: int, r: int)
    requires d > 0 && n == d * q + r && 0 <= r < d
    ensures n / d == q && n % d == r
  {
    var q' := n / d;
    var r' := n % d;
    assert n == d * q' + r';
    assert d * (q' - q) == d * q' - d * q == r - r';
    if q' > q {
      MulMono(1, q' - q, d);
    } else if q' < q {
      MulMono(q' - q, -1, d);
    }
  }

  /** Dividing by a divisor truncated to its leading 32 bits overshoots the
      true quotient by at most one. */
  lemma EstimateIsClose(n: U64, d: U64, p: int, t: int)
    requires p >= 2
    requires t >= 0x8000_0000 * p
    requires t <= d < t + p
    ensures n / d <= n / t <= n / d + 1
  {
    QuotientAntitone(n, t, d);
    GapIsSmall(n, d, p, t);
    var q, Q := n / t, n / d;
    if q > Q + 1 {
      assert q * t <= n;
      assert n < (q - 1) * d by {
        assert n < Q * d + d == (Q + 1) * d;
        MulMono(Q + 1, q - 1, d);
      }
      CrossMultiply(n, d, t, q);
    }
  }

  lemma QuotientAntitone(n: nat, t: nat, d: nat)
    requires 0 < t <= d
    ensures n / d <= n / t
  {
    var q, Q := n / t, n / d;
    assert n < q * t + t == (q + 1) * t;
    assert Q * t <= n by {
      assert Q * d <= n;
      MulMono(t, d, Q);
    }
    if q < Q {
      MulMono(q + 1, Q, t);
    }
  }

  /** Four (p - 1) never exceeds p squared: the whole bound rests on it. */
  lemma GapIsSmall(n: U64, d: U64, p: int, t: int)
    requires p >= 2
    requires t >= 0x8000_0000 * p
    requires t <= d < t + p
    ensures n * (d - t) <= d * t
  {
    var h := 0x8000_0000;
    assert n * (d - t) <= 0x1_0000_0000_0000_0000 * (p - 1) by {
      MulMono(n, 0x1_0000_0000_0000_0000, d - t);
      MulMono(d - t, p - 1, 0x1_0000_0000_0000_0000);
    }
    assert d * t >= (h * p) * (h * p) by {
      MulMono(h * p, d, t);
      MulMono(h * p, t, h * p);
    }
    assert (h * p) * (h * p) == h * h * (p * p);
    assert p * p - 4 * (p - 1) == (p - 2) * (p - 2) >= 0;
    assert 0x1_0000_0000_0000_0000 == 4 * (h * h);
    assert 0x1_0000_0000_0000_0000 * (p - 1) == (h * h) * (4 * (p - 1));
    MulMono(4 * (p - 1), p * p, h * h);
  }

  lemma CrossMultiply(n: int, d: int, t: int, q: int)
    requires d > 0 && t > 0
    requires q * t <= n < (q - 1) * d
    ensures n * (d - t) > d * t
  {
    assert (q * t) * d <= n * d by { MulMono(q * t, n, d); }
    assert n * t <= ((q - 1) * d - 1) * t by { MulMono(n, (q - 1) * d - 1, t); }
    assert ((q - 1) * d - 1) * t == (q * t) * d - d * t - t;
    assert n * (d - t) == n * d - n * t;
  }

  /** The normalised divisor: shifting the divisor left by the leading zeros of
      its high half does not overflow, and its top word is the divisor divided
      by the matching power of two. */
  lemma NormalisedDivisor(d: U64, s: nat)
    requires s <= 31
    requires 0x8000_0000 <= Shl(d / 0x1_0000_0000, s) < 0x1_0000_0000
    ensures Shl(d, s) < 0x1_0000_0000_0000_0000
    ensures Pow2(32 - s) == 2 * Pow2(31 - s)
    ensures Shl(d, s) / 0x1_0000_0000 == d / Pow2(32 - s)
    ensures 0x8000_0000 <= Shl(d, s) / 0x1_0000_0000 < 0x1_0000_0000
  {
    Pow2Values();
    Pow2Add(s, 32 - s);
    ShlIsMultiplication(d, s);
    ShlIsMultiplication(d / 0x1_0000_0000, s);
    ShiftedHalves(d, Pow2(s), Pow2(32 - s));
    DivCancel(d, Pow2(32 - s), Pow2(s));
  }

  lemma ShiftedHalves(d: U64, a: nat, b: nat)
    requires a * b == 0x1_0000_0000 && a > 0
    requires 0x8000_0000 <= (d / 0x1_0000_0000) * a < 0x1_0000_0000
    ensures 0x8000_0000 * 0x1_0000_0000 <= d * a < 0x1_0000_0000_0000_0000
  {
    var d1, d0 := d / 0x1_0000_0000, d % 0x1_0000_0000;
    var w := d1 * a;
    assert d * a == w * 0x1_0000_0000 + d0 * a by {
      assert d == d1 * 0x1_0000_0000 + d0;
      assert (d1 * 0x1_0000_0000 + d0) * a == (d1 * a) * 0x1_0000_0000 + d0 * a;
    }
    // w is a multiple of a below a * b, so one more a still fits.
    assert w + a <= 0x1_0000_0000 by {
      if d1 >= b {
        MulMono(b, d1, a);
      }
      MulMono(d1 + 1, b, a);
      assert (d1 + 1) * a == w + a;
      assert b * a == a * b;
    }
    assert 0 <= d0 * a < 0x1_0000_0000 * a by {
      MulMono(d0 + 1, 0x1_0000_0000, a);
      assert (d0 + 1) * a == d0 * a + a;
    }
  }

  lemma DivCancel(n: nat, b: nat, a: nat)
    requires a > 0 && b > 0
    ensures a * b > 0 && (n * a) / (a * b) == n / b
  {
    var q, r := n / b, n % b;
    assert n == b * q + r;
    assert n * a == (a * b) * q + r * a;
    assert r * a < b * a by { MulMono(r + 1, b, a); }
    QuotientUnique(n * a, a * b, q, r * a);
  }

  // ----- the division routines -----

  /** Unsigned 64-bit division.  The two `Divl` calls cannot trap unless the
      divisor is zero, and the correction step cannot underflow. */
  method Udiv64(n: U64, d: U64) returns (r: Outcome<U64>)
    ensures r == if d == 0 then DivideError else Done(n / d)
  {
    if d / 0x1_0000_0000 == 0 {
      var n1: U32, n0: U32, d0: U32 := n / 0x1_0000_0000, n % 0x1_0000_0000, d;
      if d0 == 0 {
        return DivideError;      // the % and / below are themselves divides by zero
      }
      SmallDivision(n, d0);
      var low := Divl(0x1_0000_0000 * (n1 % d0) + n0, d0);
      r := Done((low.value + 0x1_0000_0000 * (n1 / d0)) % 0x1_0000_0000_0000_0000);
    } else {
      if n < d {
        QuotientUnique(n, d, 0, n);
        return Done(0);
      }
      var d1: U32 := d / 0x1_0000_0000;
      var s := Nlz(d1);
      LargeDivision(n, d, s);
      var e := Divl(n / 2, Shl(d, s) % 0x1_0000_0000_0000_0000 / 0x1_0000_0000);
      var q: U64 := e.value / Pow2(31 - s);
      r := Done(if (n - (q - 1) * d) % 0x1_0000_0000_0000_0000 < d then q - 1 else q);
    }
  }

  /** The one-word path: no trap, and the sum of the two partial quotients. */
  lemma SmallDivision(n: U64, d: U32)
    requires d > 0
    ensures var n1, n0 := n / 0x1_0000_0000, n % 0x1_0000_0000;
      && 0 <= 0x1_0000_0000 * (n1 % d) + n0 < 0x1_0000_0000_0000_0000
      && Divl(0x1_0000_0000 * (n1 % d) + n0, d).Done?
      && (Divl(0x1_0000_0000 * (n1 % d) + n0, d).value + 0x1_0000_0000 * (n1 / d)) % 0x1_0000_0000_0000_0000 == n / d
  {
    SchoolDivision(n / 0x1_0000_0000, n % 0x1_0000_0000, d);
  }

  /** The estimate `e`, scaled down by `h`, is the quotient or one too large,
      and comparing the remainder it leaves tells which. */
  ghost predicate Corrects(n: U64, d: U64, e: Outcome<U32>, h: nat)
    requires d > 0 && h > 0
  {
    e.Done? && var q := e.value / h;
      && 1 <= q < 0x1_0000_0000 && 0 <= (q - 1) * d <= n
      && (if (n - (q - 1) * d) % 0x1_0000_0000_0000_0000 < d then q - 1 else q) == n / d
  }

  /** The estimate path: no trap, no underflow, and the corrected quotient. */
  lemma LargeDivision(n: U64, d: U64, s: nat)
    requires 0x1_0000_0000 <= d <= n && s <= 31
    requires 0x8000_0000 <= Shl(d / 0x1_0000_0000, s) < 0x1_0000_0000
    ensures Corrects(n, d, Divl(n / 2, Shl(d, s) % 0x1_0000_0000_0000_0000 / 0x1_0000_0000), Pow2(31 - s))
  {
    hide Pow2, Shl, Corrects;
    NormalisedDivisor(d, s);
    var v := Shl(d, s) % 0x1_0000_0000_0000_0000 / 0x1_0000_0000;
    assert v == Shl(d, s) / 0x1_0000_0000 == d / (2 * Pow2(31 - s));
    EstimateAndCorrect(n, d, v, Pow2(31 - s));
  }

  lemma EstimateAndCorrect(n: U64, d: U64, v: U32, h: nat)
    requires 0 < d <= n && h > 0 && v >= 0x8000_0000
    requires v == d / (2 * h)
    ensures Corrects(n, d, Divl(n / 2, v), h)
  {
    HalfFits(n, v);
    DivlIsQuotient(n / 2, v);
    var q := Divl(n / 2, v).value / h;
    EstimateShifts(n, v, h);
    Truncated(d, v, 2 * h);
    EstimateIsClose(n, d, 2 * h, v * (2 * h));
    QuotientAntitone(Divl(n / 2, v).value, 1, h);
    Correction(n, d, q);
  }

  lemma HalfFits(n: U64, v: U32)
    requires v >= 0x8000_0000
    ensures Divl(n / 2, v).Done?
  {
    assert n / 2 < v * 0x1_0000_0000;
  }

  lemma Truncated(d: nat, v: nat, p: nat)
    requires p > 0 && v == d / p && v >= 0x8000_0000
    ensures 0x8000_0000 * p <= v * p <= d < v * p + p
  {
    MulMono(0x8000_0000, v, p);
  }

  lemma DivlIsQuotient(n: U64, d: U32)
    requires Divl(n, d).Done?
    ensures d > 0 && Divl(n, d).value == n / d
  {
  }

  lemma EstimateShifts(n: nat, v: int, h: int)
    requires v > 0 && h > 0
    ensures v * (2 * h) > 0
    ensures ((n / 2) / v) / h == n / (v * (2 * h))
  {
    DivDiv(n, 2, v);
    DivDiv(n, 2 * v, h);
    assert (2 * v) * h == v * (2 * h);
  }

  /** One schoolbook step in base 2^32. */
  lemma SchoolDivision(n1: U32, n0: U32, d: U32)
    requires d > 0
    ensures 0 <= 0x1_0000_0000 * (n1 % d) + n0 < d * 0x1_0000_0000
    ensures Divl(0x1_0000_0000 * (n1 % d) + n0, d).Done?
    ensures Divl(0x1_0000_0000 * (n1 % d) + n0, d).value + 0x1_0000_0000 * (n1 / d) == (0x1_0000_0000 * n1 + n0) / d
    ensures 0 <= (0x1_0000_0000 * n1 + n0) / d < 0x1_0000_0000_0000_0000
  {
    var a, b := n1 / d, n1 % d;
    assert n1 == d * a + b;
    var low := 0x1_0000_0000 * b + n0;
    assert low < d * 0x1_0000_0000;
    DivlIsQuotient(low, d);
    CarryDown(d, a, b, n0);
    QuotientAntitone(0x1_0000_0000 * n1 + n0, 1, d);
  }

  lemma CarryDown(d: nat, a: nat, b: nat, n0: nat)
    requires d > 0
    ensures (0x1_0000_0000 * (d * a + b) + n0) / d == (0x1_0000_0000 * b + n0) / d + 0x1_0000_0000 * a
  {
    var low := 0x1_0000_0000 * b + n0;
    var q, r := low / d, low % d;
    assert low == d * q + r;
    assert 0x1_0000_0000 * (d * a + b) + n0 == d * (0x1_0000_0000 * a + q) + r;
    QuotientUnique(0x1_0000_0000 * (d * a + b) + n0, d, 0x1_0000_0000 * a + q, r);
  }

  lemma QuotientPositive(n: nat, d: nat)
    requires 0 < d <= n
    ensures n / d >= 1
  {
    var m := n - d;
    assert m == d * (m / d) + m % d;
    assert n == d * (1 + m / d) + m % d;
    QuotientUnique(n, d, 1 + m / d, m % d);
  }

  /** With the estimate off by at most one, `(q - 1) * d` never exceeds n and
      one comparison picks the right quotient. */
  lemma Correction(n: U64, d: U64, q: int)
    requires 0 < d <= n
    requires n / d <= q <= n / d + 1
    ensures 1 <= q && 0 <= (q - 1) * d <= n
    ensures (if (n - (q - 1) * d) % 0x1_0000_0000_0000_0000 < d then q - 1 else q) == n / d
  {
    var Q, r := n / d, n % d;
    assert n == d * Q + r;
    QuotientPositive(n, d);
    if q == Q {
      assert (q - 1) * d == d * Q - d;
    } else {
      assert (q - 1) * d == d * Q;
    }
  }

  /** `umod64` returns only the low 32 bits of the remainder. */
  method Umod64(n: U64, d: U64) returns (r: Outcome<U32>)
    ensures r == if d == 0 then DivideError else Done((n % d) % 0x1_0000_0000)
  {
    var q := Udiv64(n, d);
    if q.DivideError? {
      return DivideError;
    }
    assert n - d * q.value == n % d;
    return Done((n - d * q.value) % 0x1_0000_0000_0000_0000 % 0x1_0000_0000);
  }

  /** The remainder is the true one exactly when it fits in 32 bits. */
  lemma UmodExact(n: U64, d: U64)
    requires d != 0
    ensures (n % d) % 0x1_0000_0000 == n % d <==> n % d < 0x1_0000_0000
    ensures d <= 0x1_0000_0000 ==> (n % d) % 0x1_0000_0000 == n % d
  {
  }

  /** A remainder the 32-bit result type loses: 2^32 mod 2^33. */
  lemma UmodDropsHighHalf()
    ensures 0x1_0000_0000 % 0x2_0000_0000 == 0x1_0000_0000
    ensures (0x1_0000_0000 % 0x2_0000_0000) % 0x1_0000_0000 == 0
  {
  }

  /** Absolute value as the C code takes it: negation of the unsigned pattern. */
  function UnsignedAbs(x: I64): (r: U64)
    ensures r == Abs(x)
  {
    if x >= 0 then x else (0x1_0000_0000_0000_0000 - (x + 0x1_0000_0000_0000_0000)) % 0x1_0000_0000_0000_0000
  }

  /** Signed 64-bit division truncates toward zero for every pair except
      INT64_MIN / -1, where the wrapped quotient INT64_MIN comes back. */
  method Sdiv64(n: I64, d: I64) returns (r: Outcome<I64>)
    ensures r.DivideError? <==> d == 0
    ensures d != 0 ==> r.value == if n == -0x8000_0000_0000_0000 && d == -1 then -0x8000_0000_0000_0000 else TruncDiv(n, d)
  {
    var q := Udiv64(UnsignedAbs(n), UnsignedAbs(d));
    if q.DivideError? {
      return DivideError;
    }
    QuotientBound(Abs(n), Abs(d));
    if (n < 0) == (d < 0) {
      return Done(Signed64(q.value));
    } else {
      var m := Signed64(q.value);
      // -(INT64_MIN) wraps to itself.
      return Done(if m == -0x8000_0000_0000_0000 then m else -m);
    }
  }

  lemma QuotientBound(n: nat, d: nat)
    requires d > 0 && n <= 0x8000_0000_0000_0000
    ensures 0 <= n / d <= 0x8000_0000_0000_0000
    ensures n / d == 0x8000_0000_0000_0000 <==> n == 0x8000_0000_0000_0000 && d == 1
  {
    var q := n / d;
    assert q * d <= n < q * d + d;
    if q > 0x8000_0000_0000_0000 {
      MulMono(0x8000_0000_0000_0000 + 1, q, d);
    }
    if d >= 2 && q >= 0x8000_0000_0000_0000 {
      MulMono(2, d, q);
    }
  }

  /** Where signed division is the mathematical one. */
  lemma SdivExact(n: I64, d: I64)
    requires d != 0
    ensures -0x8000_0000_0000_0000 <= TruncDiv(n, d) <= 0x8000_0000_0000_0000
    ensures TruncDiv(n, d) < 0x8000_0000_0000_0000 <==> !(n == -0x8000_0000_0000_0000 && d == -1)
  {
    QuotientBound(Abs(n), Abs(d));
  }

  /** `smod64`: the low 32 bits, read as signed, of the truncated remainder. */
  method Smod64(n: I64, d: I64) returns (r: Outcome<I32>)
    ensures r.DivideError? <==> d == 0
    ensures d != 0 ==> r.value == Signed32(n - d * TruncDiv(n, d))
  {
    var q := Sdiv64(n, d);
    if q.DivideError? {
      return DivideError;
    }
    if n == -0x8000_0000_0000_0000 && d == -1 {
      assert n - d * q.value == -0x1_0000_0000_0000_0000;
      assert n - d * TruncDiv(n, d) == 0;
    }
    return Done(Signed32(n - d * q.value));
  }

  /** A remainder has the dividend's sign and is smaller than the divisor; the
      truncated result equals it exactly when it fits in 32 signed bits. */
  lemma SmodExact(n: I64, d: I64)
    requires d != 0
    ensures var m := n - d * TruncDiv(n, d);
      && Abs(m) < Abs(d)
      && (m == 0 || (m < 0 <==> n < 0))
      && (Signed32(m) == m <==> -0x8000_0000 <= m < 0x8000_0000)
  {
    TruncatedRemainder(n, d);
    Signed32Exact(n - d * TruncDiv(n, d));
  }

  lemma Signed32Exact(m: int)
    ensures Signed32(m) == m <==> -0x8000_0000 <= m < 0x8000_0000
  {
  }

  lemma TruncatedRemainder(n: int, d: int)
    requires d != 0
    ensures var m := n - d * TruncDiv(n, d);
      m == if n < 0 then -(Abs(n) % Abs(d)) else Abs(n) % Abs(d)
  {
    var a, q := Abs(d), Abs(n) / Abs(d);
    assert Abs(n) % a == Abs(n) - a * q;
    SignedProduct(n, d, q);
  }

  lemma SignedProduct(n: int, d: int, q: int)
    ensures d * (if (n < 0) == (d < 0) then q else -q) == if n < 0 then -(Abs(d) * q) else Abs(d) * q
  {
    assert d * -q == -(d * q) == (-d) * q;
  }
}
