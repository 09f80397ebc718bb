/** Reading integers back: the scanning functions of `scanf`, and the round trip with `printf`. */
module Scan {
  import opened Arithmetic
  import opened Wrappers
  import opened Numerals
  import opened PrintSpec

  predicate IsSpace(c: char) {
    c == ' ' || c == '\t' || c == '\n' || c == '\r' || c as int == 12 || c as int == 11
  }

  function SkipSpaces(s: string): string {
    if s != [] && IsSpace(s[0]) then SkipSpaces(s[1..]) else s
  }

  predicate InBase(c: char, base: nat) { if base == 16 then IsHexDigit(c) else IsDigit(c) }

  /** The number of leading digits. */
  function Run(s: string, base: nat): (n: nat)
    ensures n <= |s| && (forall i :: 0 <= i < n ==> InBase(s[i], base))
    ensures n < |s| ==> !InBase(s[n], base)
  {
    if s != [] && InBase(s[0], base) then 1 + Run(s[1..], base) else 0
  }

  /** The first character, or the terminating zero. */
  function Peek(s: string): char { if s == [] then '\0' else s[0] }

  function ReadDigits(s: string, base: nat): Option<(nat, string)> {
    var n := Run(s, base);
    if n == 0 then None else Some((ValueOf(s[..n], base), s[n..]))
  }

  function DropSign(t: string): string { if Peek(t) == '+' || Peek(t) == '-' then t[1..] else t }

  function Signed(negative: bool, v: int): int { if negative then -v else v }

  /** `scan_int`: the value and the unread input. */
  function ReadInt(s: string): Option<(int, string)> {
    var t := SkipSpaces(s);
    match ReadDigits(DropSign(t), 10)
    case None => None
    case Some((v, rest)) => Some((Signed(Peek(t) == '-', v), rest))
  }

  function Wrap(r: Option<(nat, string)>): Option<(nat, string)> {
    match r
    case None => None
    case Some((v, rest)) => Some((Word32(v), rest))
  }

  /** `scan_uint`, in 32 bits. */
  function ReadUint(s: string): Option<(nat, string)> {
    Wrap(ReadDigits(SkipSpaces(s), 10))
  }

  function DropRadix(t: string): string {
    if |t| >= 2 && t[0] == '0' && (t[1] == 'x' || t[1] == 'X') then t[2..] else t
  }

  /** `scan_hex`, in 32 bits. */
  function ReadHex(s: string): Option<(nat, string)> {
    Wrap(ReadDigits(DropRadix(SkipSpaces(s)), 16))
  }

  // ---- Reading what was printed

  lemma {:induction false} SkipSome(n: nat, s: string)
    requires s != [] ==> !IsSpace(s[0])
    ensures SkipSpaces(Spaces(n) + s) == s
  {
    if n == 0 {
      assert Spaces(0) + s == s;
    } else {
      assert (Spaces(n) + s)[1..] == Spaces(n - 1) + s;
      SkipSome(n - 1, s);
    }
  }

  lemma {:induction false} RunStops(a: string, b: string, base: nat)
    requires forall i :: 0 <= i < |a| ==> InBase(a[i], base)
    requires b != [] ==> !InBase(b[0], base)
    ensures Run(a + b, base) == |a|
  {
    if a == [] {
      assert a + b == b;
    } else {
      assert (a + b)[1..] == a[1..] + b;
      RunStops(a[1..], b, base);
    }
  }

  /** Zeros and digits, whatever follows them, read as the number. */
  lemma {:induction false} PrintedDigitsRead(k: nat, v: nat, base: nat, upper: bool, after: string)
    requires base == 10 || base == 16
    requires after != [] ==> !InBase(after[0], base)
    ensures var s := Zeros(k) + Digits(v, base, upper);
            && s != [] && InBase(s[0], base)
            && (|s| > 1 ==> InBase(s[1], base))
            && ReadDigits(s + after, base) == Some((v, after))
  {
    var s := Zeros(k) + Digits(v, base, upper);
    DigitsReadBack(k, v, base, upper);
    RunStops(s, after, base);
    assert (s + after)[..|s|] == s;
    assert (s + after)[|s|..] == after;
  }

  /** What may follow a printed number for it to be read back whole. */
  predicate Ends(after: string) {
    after != [] ==> !IsHexDigit(after[0]) && after[0] != 'x' && after[0] != 'X'
  }

  /** A text that reads as `v` in a base, up to `tail`. */
  predicate Reads(text: string, base: nat, v: nat, tail: string) {
    && text != [] && InBase(text[0], base) && (|text| > 1 ==> text[1] != 'x' && text[1] != 'X')
    && ReadDigits(text, base) == Some((v, tail))
  }

  lemma TextSplits(p: Parts, after: string)
    ensures Text(p) + after == Spaces(p.left) + (p.prefix + (Zeros(p.zeros) + p.digits + (Spaces(p.right) + after)))
  {
  }

  lemma {:induction false} BodyReads(k: nat, v: nat, base: nat, upper: bool, right: nat, after: string)
    requires (base == 10 || base == 16) && Ends(after)
    ensures Reads(Zeros(k) + Digits(v, base, upper) + (Spaces(right) + after), base, v, Spaces(right) + after)
  {
    PrintedDigitsRead(k, v, base, upper, Spaces(right) + after);
  }

  lemma SignedReads(left: nat, prefix: string, body: string, v: nat, tail: string)
    requires prefix == "" || prefix == " " || prefix == "+" || prefix == "-"
    requires Reads(body, 10, v, tail)
    ensures ReadInt(Spaces(left) + (prefix + body)) == Some((Signed(prefix == "-", v), tail))
  {
    if prefix == " " {
      assert Spaces(left) + (prefix + body) == Spaces(left + 1) + body;
      UnsignedReads(left + 1, body, v, tail);
    } else if prefix == "" {
      assert prefix + body == body;
      UnsignedReads(left, body, v, tail);
    } else {
      SignReads(left, prefix[0], body, v, tail);
      assert prefix == [prefix[0]];
    }
  }

  lemma {:induction false} UnsignedReads(left: nat, body: string, v: nat, tail: string)
    requires Reads(body, 10, v, tail)
    ensures ReadInt(Spaces(left) + body) == Some((v, tail))
  {
    SkipSome(left, body);
  }

  lemma {:induction false} SignReads(left: nat, sign: char, body: string, v: nat, tail: string)
    requires (sign == '+' || sign == '-') && Reads(body, 10, v, tail)
    ensures ReadInt(Spaces(left) + ([sign] + body)) == Some((Signed(sign == '-', v), tail))
  {
    SkipSome(left, [sign] + body);
    assert ([sign] + body)[1..] == body;
  }

  lemma PlainReads(left: nat, prefix: string, body: string, v: nat, tail: string)
    requires prefix == "" && Reads(body, 10, v, tail) && v < TWO32
    ensures ReadUint(Spaces(left) + (prefix + body)) == Some((v, tail))
  {
    assert prefix + body == body;
    SkipSome(left, body);
  }

  lemma RadixReads(left: nat, prefix: string, body: string, v: nat, tail: string)
    requires prefix == "" || prefix == "0x" || prefix == "0X"
    requires Reads(body, 16, v, tail) && v < TWO32
    ensures ReadHex(Spaces(left) + (prefix + body)) == Some((v, tail))
  {
    SkipSome(left, prefix + body);
    if prefix == "" {
      assert prefix + body == body;
    } else {
      assert (prefix + body)[2..] == body;
    }
  }

  /** Parts that hold the digits of `v` read as `v`, with the sign the prefix gives. */
  lemma {:induction false} IntPartsRead(p: Parts, v: nat, after: string)
    requires p.digits == Digits(v, 10, false) && Ends(after)
    requires p.prefix == "" || p.prefix == " " || p.prefix == "+" || p.prefix == "-"
    ensures ReadInt(Text(p) + after) == Some((Signed(p.prefix == "-", v), Spaces(p.right) + after))
  {
    BodyReads(p.zeros, v, 10, false, p.right, after);
    TextSplits(p, after);
    SignedReads(p.left, p.prefix, Zeros(p.zeros) + p.digits + (Spaces(p.right) + after), v, Spaces(p.right) + after);
  }

  lemma {:induction false} UintPartsRead(p: Parts, v: nat, after: string)
    requires p.digits == Digits(v, 10, false) && p.prefix == "" && v < TWO32 && Ends(after)
    ensures ReadUint(Text(p) + after) == Some((v, Spaces(p.right) + after))
  {
    BodyReads(p.zeros, v, 10, false, p.right, after);
    TextSplits(p, after);
    PlainReads(p.left, p.prefix, Zeros(p.zeros) + p.digits + (Spaces(p.right) + after), v, Spaces(p.right) + after);
  }

  lemma {:induction false} HexPartsRead(p: Parts, v: nat, upper: bool, after: string)
    requires p.digits == Digits(v, 16, upper) && v < TWO32 && Ends(after)
    requires p.prefix == "" || p.prefix == "0x" || p.prefix == "0X"
    ensures ReadHex(Text(p) + after) == Some((v, Spaces(p.right) + after))
  {
    BodyReads(p.zeros, v, 16, upper, p.right, after);
    TextSplits(p, after);
    RadixReads(p.left, p.prefix, Zeros(p.zeros) + p.digits + (Spaces(p.right) + after), v, Spaces(p.right) + after);
  }

  /** Every int but the least is read back from what `%d` prints, under every flag, width and
      precision that prints any digit. */
  lemma IntReadsBack(s: Spec, v: int, after: string)
    requires -0x8000_0000 < v < 0x8000_0000 && !Blank(s, Abs(v)) && Ends(after)
    ensures var p := IntParts(s, 'd', v < 0, Abs(v));
            ReadInt(Text(p) + after) == Some((v, Spaces(p.right) + after))
  {
    var p := IntParts(s, 'd', v < 0, Abs(v));
    assert p.prefix == Sign(s.flags, 'd', v < 0);
    assert v >= 0 ==> p.prefix == "" || p.prefix[0] != '-';
    IntPartsRead(p, Abs(v), after);
  }

  lemma UintReadsBack(s: Spec, v: nat, after: string)
    requires v < TWO32 && !Blank(s, v) && Ends(after)
    ensures var p := IntParts(s, 'u', false, v);
            ReadUint(Text(p) + after) == Some((v, Spaces(p.right) + after))
  {
    UintPartsRead(IntParts(s, 'u', false, v), v, after);
  }

  lemma HexReadsBack(s: Spec, conv: char, v: nat, after: string)
    requires (conv == 'x' || conv == 'X') && v < TWO32 && !Blank(s, v) && Ends(after)
    ensures var p := IntParts(s, conv, false, v);
            ReadHex(Text(p) + after) == Some((v, Spaces(p.right) + after))
  {
    HexPartsRead(IntParts(s, conv, false, v), v, conv == 'X', after);
  }

  // ---- Exactly when

  lemma {:induction false} OnlySpaces(n: nat)
    ensures SkipSpaces(Spaces(n)) == ""
  {
    SkipSome(n, "");
    assert Spaces(n) + "" == Spaces(n);
  }

  lemma BlankReadsNothing(p: Parts)
    requires p.digits == "" && p.zeros == 0 && (p.prefix == "" || p.prefix == " " || p.prefix == "+")
    ensures ReadInt(Text(p)) == None
  {
    if p.prefix == "+" {
      var t := p.prefix + Spaces(p.right);
      assert Text(p) == Spaces(p.left) + t;
      SkipSome(p.left, t);
      assert t[1..] == Spaces(p.right);
    } else {
      OnlySpaces(p.left + |p.prefix| + p.right);
      assert Text(p) == Spaces(p.left + |p.prefix| + p.right);
    }
  }

  /** Zero with precision zero is the one failure: no digit is printed, and none is read. */
  lemma IntRoundTripIff(s: Spec, v: int)
    requires -0x8000_0000 < v < 0x8000_0000
    ensures var p := IntParts(s, 'd', v < 0, Abs(v));
            ReadInt(Text(p)) == if Blank(s, Abs(v)) then None else Some((v, Spaces(p.right)))
  {
    var p := IntParts(s, 'd', v < 0, Abs(v));
    if !Blank(s, Abs(v)) {
      IntReadsBack(s, v, "");
      assert Text(p) + "" == Text(p) && Spaces(p.right) + "" == Spaces(p.right);
    } else {
      assert p.prefix == Sign(s.flags, 'd', false);
      BlankReadsNothing(p);
    }
  }

  lemma UintRoundTripIff(s: Spec, v: nat)
    requires v < TWO32
    ensures var p := IntParts(s, 'u', false, v);
            ReadUint(Text(p)) == if Blank(s, v) then None else Some((v, Spaces(p.right)))
  {
    var p := IntParts(s, 'u', false, v);
    if !Blank(s, v) {
      UintReadsBack(s, v, "");
      assert Text(p) + "" == Text(p) && Spaces(p.right) + "" == Spaces(p.right);
    } else {
      OnlySpaces(p.left + p.right);
      assert Text(p) == Spaces(p.left + p.right);
    }
  }

  lemma HexRoundTripIff(s: Spec, conv: char, v: nat)
    requires (conv == 'x' || conv == 'X') && v < TWO32
    ensures var p := IntParts(s, conv, false, v);
            ReadHex(Text(p)) == if Blank(s, v) then None else Some((v, Spaces(p.right)))
  {
    var p := IntParts(s, conv, false, v);
    if !Blank(s, v) {
      HexReadsBack(s, conv, v, "");
      assert Text(p) + "" == Text(p) && Spaces(p.right) + "" == Spaces(p.right);
    } else {
      OnlySpaces(p.left + p.right);
      assert Text(p) == Spaces(p.left + p.right);
    }
  }

  // ---- The loops

  method SkipFrom(s: string, at: nat) returns (to: nat)
    requires at <= |s|
    ensures at <= to <= |s| && s[to..] == SkipSpaces(s[at..])
  {
    to := at;
    while to < |s| && IsSpace(s[to])
      invariant at <= to <= |s| && SkipSpaces(s[to..]) == SkipSpaces(s[at..])
    {
      assert s[to..][1..] == s[to + 1..];
      to := to + 1;
    }
  }

  /** One more digit. */
  lemma {:induction false} RunStep(u: string, n: nat, base: nat)
    requires n < |u| && InBase(u[n], base) && (base == 10 || base == 16)
    requires forall i :: 0 <= i < n ==> InBase(u[i], base)
    ensures Run(u[n..], base) == 1 + Run(u[n + 1..], base)
    ensures Numeral(u[..n], base) && Numeral(u[..n + 1], base)
    ensures ValueOf(u[..n + 1], base) == ValueOf(u[..n], base) * base + HexValue(u[n])
  {
    assert u[n..][1..] == u[n + 1..];
    assert u[..n + 1] == u[..n] + [u[n]];
    Snoc(u[..n], u[n], base);
  }

  /** After `n` digits the numeral read so far stands for `exact`. */
  ghost predicate ReadSoFar(u: string, n: nat, base: nat, exact: nat) {
    && n <= |u| && n + Run(u[n..], base) == Run(u, base)
    && (forall i :: 0 <= i < n ==> InBase(u[i], base))
    && Numeral(u[..n], base) && exact == ValueOf(u[..n], base)
  }

  lemma {:induction false} NothingRead(u: string, base: nat)
    ensures ReadSoFar(u, 0, base, 0)
  {
    assert u[0..] == u && u[..0] == "";
  }

  lemma {:induction false} OneMoreRead(u: string, n: nat, base: nat, exact: nat)
    requires (base == 10 || base == 16) && ReadSoFar(u, n, base, exact) && n < |u| && InBase(u[n], base)
    ensures IsHexDigit(u[n]) && ReadSoFar(u, n + 1, base, exact * base + HexValue(u[n]))
  {
    RunStep(u, n, base);
  }

  lemma {:induction false} AllRead(u: string, n: nat, base: nat, exact: nat)
    requires ReadSoFar(u, n, base, exact) && (n == |u| || !InBase(u[n], base))
    ensures n == Run(u, base) && exact == ValueOf(u[..n], base)
  {
  }

  /** The accumulating loop of `scan_int`. */
  method Accumulate(u: string) returns (value: nat, n: nat)
    ensures n == Run(u, 10) && value == ValueOf(u[..n], 10)
  {
    value, n := 0, 0;
    NothingRead(u, 10);
    while n < |u| && IsDigit(u[n])
      invariant ReadSoFar(u, n, 10, value)
    {
      OneMoreRead(u, n, 10, value);
      value := value * 10 + (u[n] as int - '0' as int);
      n := n + 1;
    }
    AllRead(u, n, 10, value);
  }

  lemma CarryOver(x: nat, d: nat, base: nat)
    ensures Word32(Word32(x) * base + d) == Word32(x * base + d)
  {
    var q, w := x / TWO32, Word32(x);
    assert x == w + TWO32 * q;
    Distribute(w, q, base);
    ShiftMod(w * base + d, q * base);
  }

  lemma Distribute(w: nat, q: nat, base: nat)
    ensures (w + TWO32 * q) * base == w * base + TWO32 * (q * base)
  {
  }

  method Push(value: nat, c: char, base: nat, ghost exact: nat) returns (r: nat)
    requires IsHexDigit(c) && value == Word32(exact)
    ensures r == Word32(exact * base + HexValue(c))
  {
    CarryOver(exact, HexValue(c), base);
    r := Word32(value * base + HexValue(c));
  }

  /** The loops of `scan_uint` and `scan_hex`: 32-bit arithmetic wraps around. */
  method AccumulateWrapped(u: string, base: nat) returns (value: nat, n: nat)
    requires base == 10 || base == 16
    ensures n == Run(u, base) && value == Word32(ValueOf(u[..n], base))
  {
    value, n := 0, 0;
    ghost var exact: nat := 0;
    NothingRead(u, base);
    while n < |u| && InBase(u[n], base)
      invariant ReadSoFar(u, n, base, exact) && value == Word32(exact)
    {
      OneMoreRead(u, n, base, exact);
      value := Push(value, u[n], base, exact);
      exact := exact * base + HexValue(u[n]);
      n := n + 1;
    }
    AllRead(u, n, base, exact);
  }

  /** The optional sign of `scan_int`. */
  method TakeSign(s: string, at: nat) returns (negative: bool, to: nat)
    requires at <= |s|
    ensures to <= |s| && s[to..] == DropSign(s[at..]) && negative == (Peek(s[at..]) == '-')
  {
    negative, to := false, at;
    if at < |s| && (s[at] == '+' || s[at] == '-') {
      negative := s[at] == '-';
      assert s[at..][1..] == s[at + 1..];
      to := at + 1;
    }
  }

  /** `scan_int` at a position of the input. */
  method ScanInt(s: string, at: nat) returns (r: Option<(int, nat)>)
    requires at <= |s|
    ensures r.None? <==> ReadInt(s[at..]).None?
    ensures r.Some? ==> r.value.1 <= |s| && ReadInt(s[at..]) == Some((r.value.0, s[r.value.1..]))
  {
    var i := SkipFrom(s, at);
    var negative;
    negative, i := TakeSign(s, i);
    var value, n := Accumulate(s[i..]);
    if n == 0 {
      return None;
    }
    assert s[i..][n..] == s[i + n..];
    return Some((Signed(negative, value), i + n));
  }

  method ScanUint(s: string, at: nat) returns (r: Option<(nat, nat)>)
    requires at <= |s|
    ensures r.None? <==> ReadUint(s[at..]).None?
    ensures r.Some? ==> r.value.1 <= |s| && ReadUint(s[at..]) == Some((r.value.0, s[r.value.1..]))
  {
    var i := SkipFrom(s, at);
    var value, n := AccumulateWrapped(s[i..], 10);
    if n == 0 {
      return None;
    }
    assert s[i..][n..] == s[i + n..];
    return Some((value, i + n));
  }

  /** The optional "0x" of `scan_hex`. */
  method SkipRadix(s: string, at: nat) returns (to: nat)
    requires at <= |s|
    ensures to <= |s| && s[to..] == DropRadix(s[at..])
  {
    to := at;
    if at + 1 < |s| && s[at] == '0' && (s[at + 1] == 'x' || s[at + 1] == 'X') {
      assert s[at..][2..] == s[at + 2..];
      to := at + 2;
    }
  }

  method ScanHex(s: string, at: nat) returns (r: Option<(nat, nat)>)
    requires at <= |s|
    ensures r.None? <==> ReadHex(s[at..]).None?
    ensures r.Some? ==> r.value.1 <= |s| && ReadHex(s[at..]) == Some((r.value.0, s[r.value.1..]))
  {
    var i := SkipFrom(s, at);
    i := SkipRadix(s, i);
    var value, n := AccumulateWrapped(s[i..], 16);
    if n == 0 {
      return None;
    }
    assert s[i..][n..] == s[i + n..];
    return Some((value, i + n));
  }
}
