/** Digits of numbers: what `convert_integer` writes and the scanning loops read back. */
module Numerals {
  import opened Arithmetic

  const TWO64 := 0x1_0000_0000_0000_0000
  const LOWER := "0123456789abcdef"
  const UPPER := "0123456789ABCDEF"

  function Digit(d: nat, upper: bool): char
    requires d < 16
  {
    if upper then UPPER[d] else LOWER[d]
  }

  predicate IsDigit(c: char) { '0' <= c <= '9' }

  predicate IsHexDigit(c: char) { '0' <= c <= '9' || 'a' <= c <= 'f' || 'A' <= c <= 'F' }

  /** `hex_value`; on decimal digits it is the distance from '0'. */
  function HexValue(c: char): (v: nat)
    requires IsHexDigit(c)
    ensures v < 16
  {
    if '0' <= c <= '9' then c as int - '0' as int
    else if 'a' <= c <= 'f' then 10 + (c as int - 'a' as int)
    else 10 + (c as int - 'A' as int)
  }

  lemma DigitReadsBack(d: nat, upper: bool)
    requires d < 16
    ensures IsHexDigit(Digit(d, upper)) && HexValue(Digit(d, upper)) == d
    ensures d < 10 <==> IsDigit(Digit(d, upper))
  {
  }

  /** Decimal digits stand at code 48, the letters behind them at code 97, capital ones at code 65. */
  lemma DigitIs(d: nat, upper: bool)
    requires d < 16
    ensures Digit(d, upper) as int == if d < 10 then 48 + d else if upper then 65 + d - 10 else 97 + d - 10
  {
  }

  // ---- Writing digits

  /** The digits of `v`, most significant first, without leading zeros. */
  function Digits(v: nat, base: nat, upper: bool): (s: string)
    requires 2 <= base <= 16
    ensures s != []
    decreases v
  {
    if v < base then [Digit(v, upper)] else Shrinks(v, base); Digits(v / base, base, upper) + [Digit(v % base, upper)]
  }

  lemma Shrinks(v: nat, base: nat)
    requires 2 <= base <= v
    ensures v / base < v && v == v / base * base + v % base
  {
  }

  /** A single '0' stands for zero and for nothing else. */
  lemma {:induction false} ZeroAlone(v: nat, base: nat, upper: bool)
    requires 2 <= base <= 16
    ensures Digits(v, base, upper) == "0" <==> v == 0
  {
    if v < base {
      DigitReadsBack(v, upper);
    }
  }

  /** The value of a numeral: what reading it digit by digit adds up to. */
  function ValueOf(s: string, base: nat): nat
    requires forall i :: 0 <= i < |s| ==> IsHexDigit(s[i])
  {
    if s == [] then 0
    else
      var front := s[..|s| - 1];
      assert forall i :: 0 <= i < |front| ==> front[i] == s[i];
      ValueOf(front, base) * base + HexValue(s[|s| - 1])
  }

  /** Only digits that fit the base. */
  predicate Numeral(s: string, base: nat) {
    forall i :: 0 <= i < |s| ==> IsHexDigit(s[i]) && (base <= 10 ==> IsDigit(s[i]))
  }

  /** Leading zeros and the digits of `v` stand for `v`. */
  lemma {:induction false} DigitsReadBack(k: nat, v: nat, base: nat, upper: bool)
    requires 2 <= base <= 16
    ensures Numeral(Zeros(k) + Digits(v, base, upper), base)
    ensures ValueOf(Zeros(k) + Digits(v, base, upper), base) == v
    decreases v
  {
    if v < base {
      DigitReadsBack(v, upper);
      ZerosReadZero(k, base);
      Snoc(Zeros(k), Digit(v, upper), base);
    } else {
      Shrinks(v, base);
      DigitReadsBack(v % base, upper);
      DigitsReadBack(k, v / base, base, upper);
      var front := Zeros(k) + Digits(v / base, base, upper);
      Snoc(front, Digit(v % base, upper), base);
      assert Zeros(k) + Digits(v, base, upper) == front + [Digit(v % base, upper)];
    }
  }

  /** A digit of the base, with letters of one case. */
  predicate DigitIn(c: char, base: nat, upper: bool) {
    || ('0' <= c <= '9' && c as int - 48 < base)
    || (base == 16 && if upper then 'A' <= c <= 'F' else 'a' <= c <= 'f')
  }

  /** The usual way to write `v`: digits of the base that add up to it, and no zero in front. */
  predicate NumeralOf(s: string, v: nat, base: nat, upper: bool) {
    && s != "" && (forall i :: 0 <= i < |s| ==> DigitIn(s[i], base, upper))
    && (s[0] == '0' ==> s == "0")
    && ValueOf(s, base) == v
  }

  /** There is one such way, and the digits are it. */
  lemma {:induction false} DigitsIff(s: string, v: nat, base: nat, upper: bool)
    requires base == 8 || base == 10 || base == 16
    ensures NumeralOf(s, v, base, upper) <==> s == Digits(v, base, upper)
  {
    DigitsAreNumeral(v, base, upper);
    if NumeralOf(s, v, base, upper) {
      NumeralIsDigits(s, v, base, upper);
    }
  }

  lemma {:induction false} DigitsAreNumeral(v: nat, base: nat, upper: bool)
    requires base == 8 || base == 10 || base == 16
    ensures NumeralOf(Digits(v, base, upper), v, base, upper)
    decreases v
  {
    if v < base {
      DigitIs(v, upper);
      OneDigit(Digit(v, upper), base, upper);
    } else {
      Shrinks(v, base);
      QuotientPositive(v, base);
      DigitIs(v % base, upper);
      DigitsAreNumeral(v / base, base, upper);
      NumeralOn(Digits(v / base, base, upper), Digit(v % base, upper), v / base, base, upper);
    }
  }

  lemma QuotientPositive(v: nat, base: nat)
    requires 0 < base <= v
    ensures v / base > 0
  {
  }

  lemma DigitFound(c: char, base: nat, upper: bool)
    requires (base == 8 || base == 10 || base == 16) && DigitIn(c, base, upper)
    ensures HexValue(c) < base && Digit(HexValue(c), upper) == c
  {
    DigitIs(HexValue(c), upper);
  }

  lemma {:induction false} OneDigit(c: char, base: nat, upper: bool)
    requires (base == 8 || base == 10 || base == 16) && DigitIn(c, base, upper)
    ensures NumeralOf([c], HexValue(c), base, upper)
  {
    assert [c][..0] == "";
  }

  /** A numeral other than "0" with one more digit. */
  lemma {:induction false} NumeralOn(front: string, c: char, q: nat, base: nat, upper: bool)
    requires base == 8 || base == 10 || base == 16
    requires NumeralOf(front, q, base, upper) && q > 0 && DigitIn(c, base, upper)
    ensures NumeralOf(front + [c], q * base + HexValue(c), base, upper)
  {
    Snoc(front, c, base);
    OneDigit('0', base, upper);
    assert front != ['0'];
  }

  /** A numeral of several digits without its last one. */
  lemma {:induction false} NumeralBack(s: string, v: nat, base: nat, upper: bool) returns (front: string, c: char, q: nat)
    requires (base == 8 || base == 10 || base == 16) && NumeralOf(s, v, base, upper) && |s| > 1
    ensures s == front + [c] && NumeralOf(front, q, base, upper) && front[0] != '0'
    ensures DigitIn(c, base, upper) && v == q * base + HexValue(c)
  {
    var n := |s| - 1;
    front, c := s[..n], s[n];
    q := ValueOf(front, base);
  }

  lemma {:induction false} NumeralIsDigits(s: string, v: nat, base: nat, upper: bool)
    requires (base == 8 || base == 10 || base == 16) && NumeralOf(s, v, base, upper)
    ensures s == Digits(v, base, upper)
    decreases |s|
  {
    if |s| == 1 {
      assert s == [s[0]];
      OneDigitIs(s[0], v, base, upper);
    } else {
      var front, c, q := NumeralBack(s, v, base, upper);
      NumeralIsDigits(front, q, base, upper);
      DigitsOn(front, c, q, v, base, upper);
    }
  }

  lemma {:induction false} OneDigitIs(c: char, v: nat, base: nat, upper: bool)
    requires (base == 8 || base == 10 || base == 16) && NumeralOf([c], v, base, upper)
    ensures [c] == Digits(v, base, upper)
  {
    OneDigit(c, base, upper);
    DigitFound(c, base, upper);
  }

  lemma {:induction false} DigitsOn(front: string, c: char, q: nat, v: nat, base: nat, upper: bool)
    requires (base == 8 || base == 10 || base == 16) && DigitIn(c, base, upper)
    requires front == Digits(q, base, upper) && front[0] != '0' && v == q * base + HexValue(c)
    ensures front + [c] == Digits(v, base, upper)
  {
    DigitFound(c, base, upper);
    ZeroAlone(q, base, upper);
    LastDigitOf(q, HexValue(c), base);
    LastDigitLast(q, HexValue(c), v, base, upper);
  }

  lemma {:induction false} LastDigitLast(q: nat, d: nat, v: nat, base: nat, upper: bool)
    requires 2 <= base <= 16 && v >= base && v / base == q && v % base == d
    ensures Digits(v, base, upper) == Digits(q, base, upper) + [Digit(d, upper)]
  {
  }

  lemma LastDigitOf(q: nat, d: nat, base: nat)
    requires d < base && q > 0
    ensures q * base + d >= base && (q * base + d) / base == q && (q * base + d) % base == d
  {
    MulBounds(q, base);
    var e := (q * base + d) / base - q;
    assert e * base == d - (q * base + d) % base;
    MulBounds(e, base);
  }

  lemma {:induction false} Snoc(s: string, c: char, base: nat)
    requires Numeral(s, base) && IsHexDigit(c) && (base <= 10 ==> IsDigit(c))
    ensures Numeral(s + [c], base) && ValueOf(s + [c], base) == ValueOf(s, base) * base + HexValue(c)
  {
    assert (s + [c])[..|s|] == s;
  }

  function Zeros(k: nat): string { seq(k, _ => '0') }

  lemma {:induction false} ZerosReadZero(k: nat, base: nat)
    ensures ValueOf(Zeros(k), base) == 0
  {
    if k > 0 {
      assert Zeros(k)[..k - 1] == Zeros(k - 1);
      ZerosReadZero(k - 1, base);
    }
  }

  function Power(base: nat, n: nat): nat { if n == 0 then 1 else base * Power(base, n - 1) }

  /** A number has at least `n` digits exactly when it is not below the power of the base that first
      needs them. */
  lemma {:induction false} DigitsAtLeast(v: nat, base: nat, upper: bool, n: nat)
    requires 2 <= base <= 16
    ensures |Digits(v, base, upper)| >= n <==> n <= 1 || v >= Power(base, n - 1)
    decreases n
  {
    if n >= 2 {
      PowerAtLeast(base, n - 1);
      if v >= base {
        StepBack(v, base, upper);
        DigitsAtLeast(v / base, base, upper, n - 1);
        AtLeastMultiple(v, base, Power(base, n - 2));
      }
    }
  }

  lemma {:induction false} PowerAtLeast(base: nat, n: nat)
    requires base >= 2
    ensures Power(base, n) >= 1 && (n >= 1 ==> Power(base, n) >= base)
  {
    if n > 0 {
      PowerAtLeast(base, n - 1);
      assert base * Power(base, n - 1) >= base * 1;
    }
  }

  lemma AtLeastMultiple(v: nat, base: nat, p: nat)
    requires base >= 2
    ensures v / base >= p <==> v >= base * p
  {
    Multiple(v / base, v % base, base, p);
  }

  lemma Multiple(q: nat, r: nat, base: nat, p: nat)
    requires r < base
    ensures q >= p <==> q * base + r >= base * p
  {
    MulBounds(q - p, base);
    assert q * base + r - base * p == (q - p) * base + r;
  }

  function Power8(n: nat): nat { if n == 0 then 1 else 8 * Power8(n - 1) }

  lemma {:induction false} DigitCount(v: nat, base: nat, upper: bool, n: nat)
    requires 8 <= base <= 16 && n >= 1 && v < Power8(n)
    ensures |Digits(v, base, upper)| <= n
    decreases n
  {
    if v >= base {
      Shrinks(v, base);
      EighthOf(v, base);
      assert n > 1;
      DigitCount(v / base, base, upper, n - 1);
    }
  }

  lemma EighthOf(v: nat, base: nat)
    requires 8 <= base
    ensures v / base * 8 <= v
  {
    assert v / base * base <= v;
    assert v / base * 8 <= v / base * base;
  }

  /** The buffer of `vcbprintf` has room for every 64-bit value in every base it uses. */
  lemma {:induction false} DigitsFit(v: nat, base: nat, upper: bool)
    requires 8 <= base <= 16 && v < TWO64
    ensures |Digits(v, base, upper)| <= 22
  {
    assert Power8(2) == 64 && Power8(4) == 4096;
    Power8Sum(4, 4);
    Power8Sum(8, 8);
    Power8Sum(16, 4);
    Power8Sum(20, 2);
    DigitCount(v, base, upper, 22);
  }

  lemma {:induction false} Power8Sum(a: nat, b: nat)
    ensures Power8(a + b) == Power8(a) * Power8(b)
  {
    if a > 0 {
      Power8Sum(a - 1, b);
      EightTimes(Power8(a - 1), Power8(b));
    }
  }

  lemma EightTimes(p: nat, q: nat)
    ensures 8 * (p * q) == (8 * p) * q
  {
  }

  /** `convert_integer`: count the digits, then fill the buffer from the back. */
  method ConvertInteger(destination: array<char>, value: nat, base: nat, upper: bool) returns (length: nat)
    requires 2 <= base <= 16 && |Digits(value, base, upper)| <= destination.Length
    modifies destination
    ensures length == |Digits(value, base, upper)|
    ensures destination[..length] == Digits(value, base, upper)
  {
    length := CountDigits(value, base, upper);
    FillBack(destination, value, base, upper, length);
  }

  /** The filling loop: `i` digits are still to be written, those of `v`. */
  method FillBack(destination: array<char>, value: nat, base: nat, upper: bool, length: nat)
    requires 2 <= base <= 16 && length == |Digits(value, base, upper)| <= destination.Length
    modifies destination
    ensures destination[..length] == Digits(value, base, upper)
  {
    ghost var all := Digits(value, base, upper);
    ghost var todo := all;
    var i: nat, v: nat := length, value;
    while i != 0
      invariant i <= length == |all| <= destination.Length
      invariant todo == all[..i] && (i > 0 ==> todo == Digits(v, base, upper))
      invariant destination[i..length] == all[i..]
    {
      var c: char, rest: nat := LastDigit(v, base, upper);
      Store(destination, i, length, c, all, todo);
      todo := todo[..i - 1];
      v, i := rest, i - 1;
    }
  }

  /** One character in front of those already stored. */
  method Store(destination: array<char>, i: nat, length: nat, c: char, ghost all: string, ghost todo: string)
    requires 0 < i <= length == |all| <= destination.Length && todo == all[..i] && c == todo[i - 1]
    requires destination[i..length] == all[i..]
    modifies destination
    ensures destination[i - 1..length] == all[i - 1..] && todo[..i - 1] == all[..i - 1]
  {
    ghost var now := destination[i..length];
    destination[i - 1] := c;
    assert destination[i - 1..length] == [c] + now;
    assert all[i - 1..] == [c] + all[i..];
  }

  /** The digit to write next and what is left to write in front of it. */
  method LastDigit(v: nat, base: nat, upper: bool) returns (c: char, rest: nat)
    requires 2 <= base <= 16
    ensures var ds := Digits(v, base, upper);
            c == ds[|ds| - 1] && (|ds| > 1 ==> ds[..|ds| - 1] == Digits(rest, base, upper))
  {
    StepBack(v, base, upper);
    c, rest := Digit(v % base, upper), v / base;
  }

  lemma {:induction false} StepBack(v: nat, base: nat, upper: bool)
    requires 2 <= base <= 16
    ensures var ds := Digits(v, base, upper);
            && ds[|ds| - 1] == Digit(v % base, upper)
            && (|ds| > 1 ==> v >= base && ds[..|ds| - 1] == Digits(v / base, base, upper))
  {
    if v < base {
      SmallRemainder(v, base);
    } else {
      Shrinks(v, base);
      var front, last := Digits(v / base, base, upper), [Digit(v % base, upper)];
      assert Digits(v, base, upper) == front + last;
      assert (front + last)[..|front|] == front;
    }
  }

  lemma SmallRemainder(v: nat, base: nat)
    requires v < base
    ensures v % base == v
  {
  }

  method DropDigit(v: nat, base: nat, upper: bool) returns (rest: nat)
    requires 2 <= base <= 16 && base <= v
    ensures rest < v && |Digits(v, base, upper)| == |Digits(rest, base, upper)| + 1
  {
    Shrinks(v, base);
    rest := v / base;
  }

  method CountDigits(value: nat, base: nat, upper: bool) returns (result: nat)
    requires 2 <= base <= 16
    ensures result == |Digits(value, base, upper)|
  {
    result := 1;
    var copy: nat := value;
    while base <= copy
      invariant result + |Digits(copy, base, upper)| == |Digits(value, base, upper)| + 1
      decreases copy
    {
      copy := DropDigit(copy, base, upper);
      result := result + 1;
    }
  }
}
