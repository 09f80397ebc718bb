/** The 64-bit division helpers of libc: shift-and-subtract, and the signed forms around it. */
module Div64 {
  import opened Arithmetic

  const TWO63 := 0x8000_0000_0000_0000
  const TWO64 := 0x1_0000_0000_0000_0000

  function Pow2(i: nat): (p: nat)
    ensures p > 0
  {
    if i == 0 then 1 else 2 * Pow2(i - 1)
  }

  lemma Pow2Of64()
    ensures Pow2(64) == TWO64 && Pow2(63) == TWO63
  {
    assert Pow2(8) == 256;
    assert Pow2(16) == 65536;
    assert Pow2(24) == 0x100_0000;
    assert Pow2(32) == 0x1_0000_0000;
    assert Pow2(40) == 0x100_0000_0000;
    assert Pow2(48) == 0x1_0000_0000_0000;
    assert Pow2(56) == 0x100_0000_0000_0000;
  }

  /** `n >> i` */
  function Shr(n: nat, i: nat): nat {
    if i == 0 then n else Shr(n / 2, i - 1)
  }

  /** Bit `i` of `n`. */
  function BitOf(n: nat, i: nat): nat { Shr(n, i) % 2 }

  lemma {:induction false} ShrStep(n: nat, i: nat)
    ensures Shr(n, i + 1) == Shr(n, i) / 2
  {
    if i > 0 {
      ShrStep(n / 2, i - 1);
    }
  }

  lemma {:induction false} ShrBound(n: nat, i: nat)
    ensures Shr(n, i) <= n
    ensures n < Pow2(i) ==> Shr(n, i) == 0
  {
    if i > 0 {
      ShrBound(n / 2, i - 1);
    }
  }

  lemma {:induction false} ShrMultiple(k: nat, i: nat)
    ensures Shr(k * Pow2(i), i) == k
  {
    if i > 0 {
      assert k * Pow2(i) == 2 * (k * Pow2(i - 1));
      ShrMultiple(k, i - 1);
    }
  }

  lemma DivUnique(n: nat, p: nat, a: nat, r: nat)
    requires p > 0 && n == a * p + r && r < p
    ensures n / p == a && n % p == r
  {
    var d := n / p - a;
    assert d * p == r - n % p;
    MulBounds(d, p);
  }

  /** `r = (r << 1) | bit` in 64 bits. */
  function ShiftIn(r: nat, bit: nat): nat { 2 * r % TWO64 + bit }

  /** `q | (1 << i)` */
  function WithBit(q: nat, i: nat): nat {
    if BitOf(q, i) == 1 then q else q + Pow2(i)
  }

  /** Setting bit `i` of a multiple of 2^(i+1) adds 2^i. */
  lemma {:induction false} WithBitOf(k: nat, i: nat)
    ensures WithBit(k * Pow2(i + 1), i) == (2 * k + 1) * Pow2(i)
  {
    HalfPow(k, Pow2(i));
    ShrMultiple(2 * k, i);
  }

  lemma HalfPow(k: nat, p: nat)
    ensures k * (2 * p) == (2 * k) * p && (2 * k + 1) * p == (2 * k) * p + p
  {
  }

  /** The state after the bits down to `i`: `k` is the quotient of the leading bits. */
  ghost predicate Divided(n: nat, d: nat, i: nat, k: nat, q: nat, r: nat) {
    q == k * Pow2(i) && Shr(n, i) == k * d + r && r < d
  }

  /** One round on the remainder.  The shift never overflows, because the remainder is at most the
      leading bits of n. */
  lemma {:induction false} DivideStep(n: nat, d: nat, i: nat, k: nat, r: nat)
    requires n < TWO64 && d >= 1 && Shr(n, i + 1) == k * d + r && r < d
    ensures 2 * r + BitOf(n, i) < TWO64
    ensures var s := ShiftIn(r, BitOf(n, i));
            if s >= d then Shr(n, i) == (2 * k + 1) * d + (s - d) && s - d < d
            else Shr(n, i) == (2 * k) * d + s
  {
    ShrStep(n, i);
    ShrBound(n, i);
    var b := BitOf(n, i);
    assert Shr(n, i) == 2 * Shr(n, i + 1) + b;
    Doubled(k, d, r, b);
    assert 2 * r + b <= Shr(n, i);
  }

  lemma Doubled(k: nat, d: nat, r: nat, b: nat)
    ensures k * d >= 0
    ensures 2 * (k * d + r) + b == (2 * k) * d + (2 * r + b)
    ensures (2 * k + 1) * d == (2 * k) * d + d
  {
  }

  lemma DividedStep(n: nat, d: nat, i: nat, k: nat, q: nat, r: nat)
    requires n < TWO64 && d >= 1 && Divided(n, d, i + 1, k, q, r)
    ensures var s := ShiftIn(r, BitOf(n, i));
            if s >= d then Divided(n, d, i, 2 * k + 1, WithBit(q, i), s - d)
            else Divided(n, d, i, 2 * k, q, s)
  {
    DivideStep(n, d, i, k, r);
    WithBitOf(k, i);
    HalfPow(k, Pow2(i));
  }

  /** `__udivdi3`: exact for every divisor, also above 2^63. */
  method Udiv(n: nat, d: nat) returns (q: nat)
    requires n < TWO64 && 0 < d < TWO64
    ensures q == n / d
  {
    Pow2Of64();
    ShrBound(n, 64);
    q := 0;
    var r: nat := 0;
    ghost var k: nat := 0;
    var i: nat := 64;
    while i > 0
      invariant i <= 64 && Divided(n, d, i, k, q, r)
    {
      i := i - 1;
      DividedStep(n, d, i, k, q, r);
      r := ShiftIn(r, BitOf(n, i));
      if r >= d {
        r := r - d;
        q := WithBit(q, i);
        k := 2 * k + 1;
      } else {
        k := 2 * k;
      }
    }
    DivUnique(n, d, k, r);
  }

  /** `__umoddi3` */
  method Umod(n: nat, d: nat) returns (r: nat)
    requires n < TWO64 && 0 < d < TWO64
    ensures r == n % d
  {
    Pow2Of64();
    ShrBound(n, 64);
    r := 0;
    ghost var k: nat := 0;
    var i: nat := 64;
    while i > 0
      invariant i <= 64 && Shr(n, i) == k * d + r && r < d
    {
      i := i - 1;
      DivideStep(n, d, i, k, r);
      r := ShiftIn(r, BitOf(n, i));
      if r >= d {
        r := r - d;
        k := 2 * k + 1;
      } else {
        k := 2 * k;
      }
    }
    DivUnique(n, d, k, r);
  }

  // ---- Signed division ----

  type int64 = a: int | -TWO63 <= a < TWO63

  /** A 64-bit word read as a signed number. */
  function Signed(u: nat): int64
    requires u < TWO64
  {
    if u < TWO63 then u else u - TWO64
  }

  function Negated(u: nat): nat
    requires u < TWO64
  {
    (TWO64 - u) % TWO64
  }

  /** Division that truncates toward zero, and the remainder that goes with it. */
  function TruncDiv(a: int, b: int): int
    requires b != 0
  {
    if (a < 0) != (b < 0) then -(Abs(a) / Abs(b)) else Abs(a) / Abs(b)
  }

  function TruncMod(a: int, b: int): int
    requires b != 0
  {
    if a < 0 then -(Abs(a) % Abs(b)) else Abs(a) % Abs(b)
  }

  /** Section 6.5.5 of C11: (a/b)*b + a%b is a, and the remainder is smaller than the divisor and
      has the sign of the dividend. */
  lemma TruncLaws(a: int, b: int)
    requires b != 0
    ensures TruncDiv(a, b) * b + TruncMod(a, b) == a
    ensures Abs(TruncMod(a, b)) < Abs(b)
    ensures TruncMod(a, b) == 0 || (TruncMod(a, b) < 0 <==> a < 0)
  {
    SignLaws(Abs(a) / Abs(b), b);
    MagnitudeLaw(Abs(a), Abs(b));
  }

  lemma MagnitudeLaw(a: nat, b: nat)
    requires b > 0
    ensures a / b * b + a % b == a && a % b < b
  {
  }

  lemma SignLaws(q: int, b: int)
    ensures (-q) * b == q * (-b) == -(q * b)
  {
  }

  /** Magnitudes up to 2^63 change sign without loss, but 2^63 itself is negative. */
  lemma Magnitude(u: nat)
    requires u < TWO64
    ensures u <= TWO63 ==> Signed(Negated(u)) == -(u as int)
    ensures u < TWO63 ==> Signed(u) == u
    ensures u == TWO63 ==> Signed(u) == -TWO63
  {
    if 0 < u {
      SmallWord(TWO64 - u);
    }
  }

  lemma SmallWord(x: nat)
    requires x < TWO64
    ensures x % TWO64 == x
  {
  }

  lemma RemainderBound(x: nat, y: nat)
    requires y > 0
    ensures x % y < y
  {
  }

  /** `__divdi3`: truncates toward zero, except for the one quotient that does not fit. */
  method Div(a: int64, b: int64) returns (q: int64)
    requires b != 0
    ensures !(a == -TWO63 && b == -1) ==> q == TruncDiv(a, b)
    ensures a == -TWO63 && b == -1 ==> q == -TWO63
  {
    var sign := (a < 0) != (b < 0);
    var u := Udiv(Abs(a), Abs(b));
    QuotientBound(Abs(a), Abs(b));
    Magnitude(u);
    q := if sign then Signed(Negated(u)) else Signed(u);
  }

  /** Only dividing by one gives back a magnitude of 2^63. */
  lemma QuotientBound(x: nat, y: nat)
    requires x <= TWO63 && y >= 1
    ensures x / y <= x && (x / y == TWO63 ==> x == TWO63 && y == 1)
  {
    QuotientOf(x, x / y, x % y, y);
  }

  lemma QuotientOf(x: nat, k: nat, r: nat, y: nat)
    requires x <= TWO63 && y >= 1 && x == y * k + r
    ensures k <= x && (k == TWO63 ==> x == TWO63 && y == 1)
  {
    MulBounds(y, k);
    if y >= 2 {
      MulBounds(y - 1, k);
      assert y * k == (y - 1) * k + k;
    }
  }

  /** `__moddi3` */
  method Mod(a: int64, b: int64) returns (r: int64)
    requires b != 0
    ensures r == TruncMod(a, b)
  {
    var u := Umod(Abs(a), Abs(b));
    Magnitude(u);
    RemainderBound(Abs(a), Abs(b));
    r := if a < 0 then Signed(Negated(u)) else Signed(u);
  }
}
