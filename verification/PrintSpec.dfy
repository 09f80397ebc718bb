/** What one conversion of `vcbprintf` prints. */
module PrintSpec {
  import opened Arithmetic
  import opened Wrappers
  import opened Numerals

  datatype Flags = Flags(alternate: bool, zeroPad: bool, minus: bool, blank: bool, plus: bool)

  /** A parsed specification; a negative width asks for padding on the right. */
  datatype Spec = Spec(flags: Flags, width: int, precision: Option<nat>)

  /** The iterations of a padding loop from `from` up to `to`. */
  function Gap(from: int, to: int): nat { if from < to then to - from else 0 }

  function Spaces(n: nat): string { seq(n, _ => ' ') }

  function Base(conv: char): (b: nat)
    ensures 8 <= b <= 16
  {
    if conv == 'x' || conv == 'X' then 16 else if conv == 'o' then 8 else 10
  }

  function Sign(f: Flags, conv: char, negative: bool): string {
    if negative then "-"
    else if conv == 'd' && f.plus then "+"
    else if conv == 'd' && f.blank then " "
    else ""
  }

  function Radix(f: Flags, conv: char, v: nat): string {
    if !f.alternate || v == 0 then ""
    else if conv == 'x' || conv == 'X' then ['0', conv]
    else if conv == 'o' then "0"
    else ""
  }

  /** The parts of a printed integer, in the order they are written. */
  datatype Parts = Parts(left: nat, prefix: string, zeros: nat, digits: string, right: nat)

  function Text(p: Parts): string {
    Spaces(p.left) + p.prefix + Zeros(p.zeros) + p.digits + Spaces(p.right)
  }

  /** A precision of zero prints nothing for zero. */
  predicate Blank(s: Spec, v: nat) { s.precision == Some(0) && v == 0 }

  /** How `vcbprintf` lays an integer out; `conv` is d, u, o, x or X. */
  function IntParts(s: Spec, conv: char, negative: bool, v: nat): Parts {
    var prefix := Sign(s.flags, conv, negative) + Radix(s.flags, conv, v);
    var digits := if Blank(s, v) then "" else Digits(v, Base(conv), conv == 'X');
    var length := |prefix| + |digits|;
    var full := |prefix| + (if s.precision.Some? && |digits| < s.precision.value then s.precision.value else |digits|);
    var zeroPad := s.flags.zeroPad && s.width >= 0 && s.precision.None?;
    var zeros := if zeroPad then Gap(length, Abs(s.width))
                 else if s.precision.Some? then Gap(length, s.precision.value) else 0;
    Parts(if !zeroPad && s.width >= 0 then Gap(full, Abs(s.width)) else 0, prefix, zeros, digits,
          if !zeroPad && s.width < 0 then Gap(full, Abs(s.width)) else 0)
  }

  /** A sign or a radix goes in front of the digits. */
  predicate HasPrefix(f: Flags, conv: char, negative: bool, v: nat) {
    || negative || (conv == 'd' && (f.plus || f.blank))
    || (f.alternate && v != 0 && (conv == 'x' || conv == 'X' || conv == 'o'))
  }

  /** The number has at least as many digits as the precision asks for, as section 7.21.6.1 of C11
      wants it, exactly when it has neither sign nor radix or is large enough to have so many digits
      of its own: the loop that writes zeros counts the prefix. */
  lemma {:induction false} PrecisionIff(s: Spec, conv: char, negative: bool, v: nat, n: nat)
    requires s.precision == Some(n)
    ensures var p := IntParts(s, conv, negative, v);
            p.zeros + |p.digits| >= n <==>
            !HasPrefix(s.flags, conv, negative, v) || n <= 1 || v >= Power(Base(conv), n - 1)
  {
    var p := IntParts(s, conv, negative, v);
    DigitsAtLeast(v, Base(conv), conv == 'X', n);
    PrefixIff(s.flags, conv, negative, v);
    if n >= 2 {
      PowerAtLeast(Base(conv), n - 1);
    }
    assert p.zeros + |p.digits| >= n <==> p.prefix == "" || |p.digits| >= n;
  }

  lemma PrefixIff(f: Flags, conv: char, negative: bool, v: nat)
    ensures Sign(f, conv, negative) + Radix(f, conv, v) == "" <==> !HasPrefix(f, conv, negative, v)
  {
  }

  /** Minus five with precision three prints two digits. */
  lemma PrecisionFallsShort()
    ensures Text(IntParts(Spec(Flags(false, false, false, false, false), 0, Some(3)), 'd', true, 5)) == "-05"
  {
    var p := IntParts(Spec(Flags(false, false, false, false, false), 0, Some(3)), 'd', true, 5);
    assert Digits(5, 10, false) == "5";
    assert p.prefix == "-" && p.digits == "5" && p.zeros == 1 && p.left == 0 && p.right == 0;
    assert Zeros(1) == "0";
  }

  /** A character or a string in its field; here the flag decides the side. */
  function Padded(s: Spec, body: string): string {
    var pad := Spaces(Gap(|body|, Abs(s.width)));
    if s.flags.minus then body + pad else pad + body
  }
}
