/** Integer division helpers: ceiling division on the unsigned types,
    floor division on `i32` built from Rust's truncating `/` and `%`, and
    the frame interval derived from a frame rate. */
module Numeric {
  import opened Ints

  /** `q` is the ceiling of `n / d`: the least value whose multiple by `d`
      reaches `n`. */
  ghost predicate IsCeilQuotient(n: int, d: int, q: int)
  {
    q * d >= n && (q - 1) * d < n
  }

  /** `q` is the floor of `n / d` (rounding towards minus infinity), for a
      divisor of either sign. */
  ghost predicate IsFloorQuotient(n: int, d: int, q: int)
  {
    if d > 0 then q * d <= n < (q + 1) * d else (q + 1) * d < n <= q * d
  }

  /** A product with a factor of at least 1 is at least the other factor. */
  lemma MulAtLeast(x: int, y: int)
    requires x >= 0 && y >= 1
    ensures x * y >= x
  {
    assert x * y == x * (y - 1) + x;
  }

  /** The facts an unsigned ceiling division rests on: the quotient plus
      one for a positive remainder is the ceiling, and cannot exceed `n`. */
  lemma CeilFromQuotient(n: nat, d: nat)
    requires d > 0
    ensures n % d > 0 ==> IsCeilQuotient(n, d, n / d + 1) && n / d + 1 <= n
    ensures n % d == 0 ==> IsCeilQuotient(n, d, n / d)
  {
    var q, m := n / d, n % d;
    assert n == q * d + m && 0 <= m < d;
    CeilOfSplit(n, d, q, m);
  }

  /** `CeilFromQuotient` for a quotient and remainder given by name. */
  lemma CeilOfSplit(n: nat, d: nat, q: nat, m: nat)
    requires d > 0 && n == q * d + m && m < d
    ensures m > 0 ==> IsCeilQuotient(n, d, q + 1) && q + 1 <= n
    ensures m == 0 ==> IsCeilQuotient(n, d, q)
  {
    assert (q + 1) * d == q * d + d;
    assert (q - 1) * d == q * d - d;
    MulAtLeast(q, d);
  }

  /** `CeilFromQuotient` for the quotient and remainder a division
      returned. */
  lemma CeilStep(n: nat, d: nat, q: nat, m: nat)
    requires d > 0 && q == n / d && m == n % d
    ensures m > 0 ==> IsCeilQuotient(n, d, q + 1) && q + 1 <= n
    ensures m == 0 ==> IsCeilQuotient(n, d, q)
  {
    CeilFromQuotient(n, d);
  }

  /** Ceiling division on `usize` (a 64-bit target), as written with a
      quotient, a remainder and a conditional increment. */
  function DivCeilUsize(n: usize, d: usize): (r: usize)
    requires d != 0
    ensures IsCeilQuotient(n as int, d as int, r as int)
  {
    var quotient := n / d;
    var remainder := n % d;
    CeilStep(n as nat, d as nat, quotient as nat, remainder as nat);
    if remainder > 0 then quotient + 1 else quotient
  }

  function DivCeilU32(n: u32, d: u32): (r: u32)
    requires d != 0
    ensures IsCeilQuotient(n as int, d as int, r as int)
  {
    var quotient := n / d;
    var remainder := n % d;
    CeilStep(n as nat, d as nat, quotient as nat, remainder as nat);
    if remainder > 0 then quotient + 1 else quotient
  }

  function DivCeilU64(n: u64, d: u64): (r: u64)
    requires d != 0
    ensures IsCeilQuotient(n as int, d as int, r as int)
  {
    var quotient := n / d;
    var remainder := n % d;
    CeilStep(n as nat, d as nat, quotient as nat, remainder as nat);
    if remainder > 0 then quotient + 1 else quotient
  }

  /** The ceiling quotient is unique, so each typed version agrees with
      the mathematical one, and an exact division gives the plain
      quotient. */
  lemma CeilQuotientUnique(n: int, d: int, q: int, q': int)
    requires d > 0 && IsCeilQuotient(n, d, q) && IsCeilQuotient(n, d, q')
    ensures q == q'
  {
  }

  /** When `d` divides `n` every ceiling division returns `n / d`. */
  lemma DivCeilExact(n: u32, d: u32, m: u64, e: u64, s: usize, f: usize)
    requires d != 0 && n % d == 0
    requires e != 0 && m % e == 0
    requires f != 0 && s % f == 0
    ensures DivCeilU32(n, d) == n / d
    ensures DivCeilU64(m, e) == m / e
    ensures DivCeilUsize(s, f) == s / f
  {
    CeilFromQuotient(n as nat, d as nat);
    CeilQuotientUnique(n as int, d as int, DivCeilU32(n, d) as int, (n / d) as int);
    CeilFromQuotient(m as nat, e as nat);
    CeilQuotientUnique(m as int, e as int, DivCeilU64(m, e) as int, (m / e) as int);
    CeilFromQuotient(s as nat, f as nat);
    CeilQuotientUnique(s as int, f as int, DivCeilUsize(s, f) as int, (s / f) as int);
  }

  /** The library's examples: 100 and 101 divided by 2, rounded up. */
  lemma DivCeilExamples()
    ensures DivCeilUsize(100, 2) == 50 && DivCeilU64(100, 2) == 50
    ensures DivCeilUsize(101, 2) == 51 && DivCeilU64(101, 2) == 51
  {
  }

  // ---------------------------------------------------------------------
  // Truncating and floor division on i32

  /** Rust's `/` on signed integers: the quotient rounded towards zero. */
  function TruncDiv(n: int, d: int): (q: int)
    requires d != 0
  {
    var a := (if n < 0 then -n else n) / (if d < 0 then -d else d);
    if (n < 0) != (d < 0) then -a else a
  }

  /** Rust's `%` on signed integers: the remainder after truncating
      division, which has the sign of `n`. */
  function TruncRem(n: int, d: int): (r: int)
    requires d != 0
  {
    n - d * TruncDiv(n, d)
  }

  /** The truncating quotient and remainder split `n`, the remainder is
      smaller than the divisor in size, and the quotient is no larger than
      `n` in size. */
  lemma TruncFacts(n: int, d: int)
    requires d != 0
    ensures n == d * TruncDiv(n, d) + TruncRem(n, d)
    ensures -Abs(d) < TruncRem(n, d) < Abs(d)
    ensures Abs(TruncDiv(n, d)) <= Abs(n)
  {
    var a, m := Abs(n) / Abs(d), Abs(n) % Abs(d);
    assert Abs(n) == a * Abs(d) + m && 0 <= m < Abs(d);
    MulAtLeast(a, Abs(d));
    TruncSplit(n, d, a, m);
  }

  /** Truncating division commutes with negating the dividend. */
  lemma TruncDivNeg(n: int, d: int)
    requires d != 0
    ensures TruncDiv(-n, d) == -TruncDiv(n, d)
  {
    if n == 0 {
      var e := if d < 0 then -d else d;
      assert TruncDiv(n, d) == 0 / e == 0 by {
        assert 0 / e * e + 0 % e == 0;
      }
    }
  }

  function Abs(x: int): (r: int)
    ensures r >= 0 && (r == x || r == -x)
  {
    if x < 0 then -x else x
  }

  /** The four sign cases of the truncating remainder: it is the unsigned
      remainder with the sign of `n`. */
  lemma TruncSplit(n: int, d: int, a: int, m: int)
    requires d != 0 && a >= 0 && Abs(n) == a * Abs(d) + m && 0 <= m < Abs(d)
    requires a == Abs(n) / Abs(d)
    ensures TruncRem(n, d) == if n < 0 then -m else m
  {
    var q := TruncDiv(n, d);
    var p := a * Abs(d);
    if d < 0 && n < 0 {
      assert q == a && d * q == -p;
    } else if d < 0 {
      assert q == -a && d * q == p;
    } else if n < 0 {
      assert q == -a && d * q == -p;
    } else {
      assert q == a && d * q == p;
    }
  }

  /** The correction from any quotient with a remainder smaller than the
      divisor in size to the floor quotient: step down once when the
      remainder is nonzero and its sign differs from the divisor's. */
  lemma FloorCorrection(n: int, d: int, q: int, r: int)
    requires d != 0 && n == d * q + r && -Abs(d) < r < Abs(d)
    ensures IsFloorQuotient(n, d, if (r > 0 && d < 0) || (r < 0 && d > 0) then q - 1 else q)
  {
    assert q * d == d * q;
    assert (q + 1) * d == d * q + d;
    assert (q - 1) * d == d * q - d;
  }

  /** Floor division on `i32`, as the library writes it: the truncating
      quotient, less one when the remainder is nonzero and its sign differs
      from the divisor's. Dividing `i32::MIN` by -1 overflows in Rust and
      is excluded. */
  function DivFloorI32(n: i32, d: i32): (r: i32)
    requires d != 0 && !(n as int == I32_MIN && d == -1)
    ensures IsFloorQuotient(n as int, d as int, r as int)
  {
    var q := TruncDiv(n as int, d as int);
    var rem := TruncRem(n as int, d as int);
    TruncFacts(n as int, d as int);
    FloorCorrection(n as int, d as int, q, rem);
    I32Quotient(n as int, d as int, q, rem);
    if (rem > 0 && d < 0) || (rem < 0 && d > 0) then (q - 1) as i32 else q as i32
  }

  /** The truncating quotient of two `i32` values, and one less than it
      when the floor correction applies, fits in `i32` apart from
      `i32::MIN / -1`. */
  lemma I32Quotient(n: int, d: int, q: int, r: int)
    requires I32_MIN <= n <= I32_MAX && I32_MIN <= d <= I32_MAX && d != 0
    requires !(n == I32_MIN && d == -1)
    requires n == d * q + r && -Abs(d) < r < Abs(d) && Abs(q) <= Abs(n)
    ensures I32_MIN <= q <= I32_MAX
    ensures (r > 0 && d < 0) || (r < 0 && d > 0) ==> I32_MIN < q
  {
  }

  /** The floor quotient is unique. */
  lemma FloorUnique(n: int, d: int, q: int, q': int)
    requires d > 0 && IsFloorQuotient(n, d, q) && IsFloorQuotient(n, d, q')
    ensures q == q'
  {
  }

  /** With a positive divisor the floor quotient is Dafny's own `/`. */
  lemma DivFloorMatchesEuclid(n: i32, d: i32)
    requires d > 0
    ensures DivFloorI32(n, d) as int == n as int / d as int
  {
    var e, m := n as int / d as int, n as int % d as int;
    assert n as int == e * d as int + m && 0 <= m < d as int;
    assert (e + 1) * d as int == e * d as int + d as int;
    FloorUnique(n as int, d as int, DivFloorI32(n, d) as int, e);
  }

  /** The library's examples: Rust's `/` truncates, floor division rounds
      down. */
  lemma DivFloorExamples()
    ensures TruncDiv(101, 2) == 50 && TruncDiv(-101, 2) == -50
    ensures DivFloorI32(101, 2) == 50 && DivFloorI32(100, 2) == 50
    ensures DivFloorI32(-101, 2) == -51 && DivFloorI32(-100, 2) == -50
  {
  }

  // ---------------------------------------------------------------------
  // Frame interval

  /** The time between frames at `fps` frames per second, in whole
      milliseconds rounded up; a rate of 0 is refused by the caller. */
  function FpsToTickInterval(fps: u32): (millis: u64)
    requires fps != 0
    ensures IsCeilQuotient(1000, fps as int, millis as int)
    ensures 1 <= millis <= 1000
  {
    var r := DivCeilU32(1000, fps);
    CeilBounds(1000, fps as int, r as int);
    r as u64
  }

  /** The ceiling of a positive `n` over `d` lies between 1 and `n`. */
  lemma CeilBounds(n: int, d: int, q: int)
    requires n > 0 && d > 0 && IsCeilQuotient(n, d, q)
    ensures 1 <= q <= n
  {
    if q > n {
      MulAtLeast(q - 1, d);
    }
  }

  /** The default 60 frames per second ticks every 17 ms. */
  lemma SixtyFps()
    ensures FpsToTickInterval(60) == 17
  {
  }
}
