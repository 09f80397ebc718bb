/** What a whole format string prints, by one pass over the format. */
module PrintFormat {
  import opened Arithmetic
  import opened Wrappers
  import opened Numerals
  import opened PrintSpec
  import opened Scan

  const MAX_FORMAT_SCAN := 4096
  const MAX_STRING_SCAN := 8192
  const SIZE_MAX := 0xFFFF_FFFF

  /** An argument slot: the word and the double word found there, or the string it points to. */
  datatype Arg = Arg(word: nat, wide: nat, text: Option<string>)

  datatype Length = HH | H | Default | L | LL | LongDouble | J | Z | T

  /** A specification up to its conversion character, which begins `rest`. */
  datatype Parsed = TooLong | Parsed(spec: Spec, length: Length, rest: string, next: nat)

  /** Whether printing reached the end, gave up, or met a conversion that is not modelled. */
  datatype Status = Done | Failed | Outside

  datatype Output = Output(text: string, status: Status)

  /** Text printed, and the arguments used; an unknown conversion; or one that is not modelled. */
  datatype Conversion = Printed(text: string, next: nat) | Unknown | NotModelled

  function Word(a: Arg): (w: nat)
    ensures w < TWO32
  {
    a.word % TWO32
  }

  function Wide(a: Arg): (w: nat)
    ensures w < TWO64
  {
    a.wide % TWO64
  }

  function AsSigned(w: nat, modulus: nat): int { if 2 * w >= modulus then w - modulus else w }

  // ---- Parsing a specification

  predicate IsFlag(c: char) {
    c == '#' || c == '0' || c == '-' || c == ' ' || c == '+' || c == '\'' || c == 'I'
  }

  function AddFlag(f: Flags, c: char): Flags {
    if c == '#' then f.(alternate := true)
    else if c == '0' then f.(zeroPad := true)
    else if c == '-' then f.(minus := true)
    else if c == ' ' then f.(blank := true)
    else if c == '+' then f.(plus := true)
    else f
  }

  const NO_FLAGS := Flags(false, false, false, false, false)

  function ParseFlags(f: string, acc: Flags): (r: (Flags, string))
    ensures |r.1| <= |f|
  {
    if f != [] && IsFlag(f[0]) then ParseFlags(f[1..], AddFlag(acc, f[0])) else (acc, f)
  }

  /** A width or precision with the rest of the format and the next argument. */
  datatype Number = Refused | Number(value: int, rest: string, next: nat)

  function ParseWidth(f: string, args: nat -> Arg, k: nat): (r: Number)
    ensures r.Number? ==> |r.rest| <= |f|
  {
    if Peek(f) == '*' then Number(AsSigned(Word(args(k)), TWO32), f[1..], k + 1)
    else
      var n := Run(f, 10);
      if n >= MAX_FORMAT_SCAN then Refused else Number(ValueOf(f[..n], 10), f[n..], k)
  }

  /** The precision; `SIZE_MAX` stands for none. */
  function ParsePrecision(f: string, args: nat -> Arg, k: nat): (r: Number)
    ensures r.Number? ==> |r.rest| <= |f| && 0 <= r.value
  {
    if Peek(f) != '.' then Number(SIZE_MAX, f, k)
    else
      var g := f[1..];
      if Peek(g) == '*' then
        var p := AsSigned(Word(args(k)), TWO32);
        Number(if p >= 0 then p else 0, g[1..], k + 1)
      else if Peek(g) == '-' then Number(0, g[1..][Run(g[1..], 10)..], k)
      else
        var n := Run(g, 10);
        if n >= MAX_FORMAT_SCAN then Refused else Number(Word32(ValueOf(g[..n], 10)), g[n..], k)
  }

  /** The longest length modifier, and its length. */
  function ParseLength(f: string): (r: (Length, nat))
    ensures r.1 <= |f|
  {
    if f == [] then (Default, 0)
    else
      var twice := |f| > 1 && f[1] == f[0];
      if f[0] == 'h' then (if twice then (HH, 2) else (H, 1))
      else if f[0] == 'l' then (if twice then (LL, 2) else (L, 1))
      else if f[0] == 'L' then (LongDouble, 1)
      else if f[0] == 'j' then (J, 1)
      else if f[0] == 'z' then (Z, 1)
      else if f[0] == 't' then (T, 1)
      else (Default, 0)
  }

  function ParseSpec(f: string, args: nat -> Arg, k: nat): (r: Parsed)
    ensures r.Parsed? ==> |r.rest| <= |f|
  {
    var (flags, g) := ParseFlags(f, NO_FLAGS);
    match ParseWidth(g, args, k)
    case Refused => TooLong
    case Number(w, h, k1) =>
      match ParsePrecision(h, args, k1)
      case Refused => TooLong
      case Number(p, t, k2) =>
        var (length, n) := ParseLength(t);
        var spec := Spec(flags, if flags.minus then -w else w, if p == SIZE_MAX then None else Some(p));
        Parsed(spec, length, t[n..], k2)
  }

  // ---- One conversion

  function SignedArg(a: Arg, length: Length): int {
    match length
    case LL => AsSigned(Wide(a), TWO64)
    case J => AsSigned(Wide(a), TWO64)
    case Z => Word(a)
    case _ => AsSigned(Word(a), TWO32)
  }

  function UnsignedArg(a: Arg, length: Length): (v: nat)
    ensures v < TWO64
  {
    match length
    case LL => Wide(a)
    case J => Wide(a)
    case T => if 2 * Word(a) >= TWO32 then Word(a) + (TWO64 - TWO32) else Word(a)
    case _ => Word(a)
  }

  predicate IsIntConv(c: char) {
    c == 'd' || c == 'i' || c == 'o' || c == 'u' || c == 'x' || c == 'X' || c == 'p'
  }

  function IntText(s: Spec, length: Length, conv: char, a: Arg): string
    requires IsIntConv(conv)
  {
    if conv == 'p' then
      var s' := s.(flags := s.flags.(alternate := !s.flags.alternate));
      Text(IntParts(s', 'x', false, Word(a)))
    else if conv == 'd' || conv == 'i' then
      var v := SignedArg(a, length);
      Text(IntParts(s, 'd', v < 0, Abs(v)))
    else
      Text(IntParts(s, conv, false, UnsignedArg(a, length)))
  }

  /** At most as much of the string as the precision and the scan limit allow. */
  function StringBody(s: Spec, a: Arg): string {
    var text := match a.text case None => "(null)" case Some(t) => t;
    var max := if s.precision.Some? && s.precision.value < MAX_STRING_SCAN then s.precision.value else MAX_STRING_SCAN;
    if |text| <= max then text else text[..max]
  }

  predicate IsOutside(c: char) {
    c == 'e' || c == 'E' || c == 'f' || c == 'F' || c == 'g' || c == 'G' || c == 'a' || c == 'A' || c == 'm' || c == 'n'
  }

  function Convert(s: Spec, length: Length, conv: char, args: nat -> Arg, k: nat): Conversion {
    if IsIntConv(conv) then
      if length == LongDouble && conv != 'p' then Unknown else Printed(IntText(s, length, conv, args(k)), k + 1)
    else if IsOutside(conv) then NotModelled
    else if conv == 'c' && length == Default then Printed(Padded(s, [(Word(args(k)) % 256) as char]), k + 1)
    else if conv == 's' && length == Default then Printed(Padded(s, StringBody(s, args(k))), k + 1)
    else Unknown
  }

  // ---- The whole format

  /** The number of characters before the next percent sign. */
  function Literal(f: string): (n: nat)
    ensures n <= |f|
  {
    if f != [] && f[0] != '%' then 1 + Literal(f[1..]) else 0
  }

  function Then(text: string, o: Output): Output { Output(text + o.text, o.status) }

  /** What `vcbprintf` hands to a callback that takes everything. After an unknown conversion the
      rest of the format is printed as it stands. */
  function Emit(f: string, args: nat -> Arg, k: nat, rejected: bool): Output
    decreases |f|
  {
    if f == [] then Output("", Done)
    else if f[0] != '%' then
      var n := Literal(f);
      if n >= MAX_FORMAT_SCAN then Output("", Failed) else Then(f[..n], Emit(f[n..], args, k, rejected))
    else if Peek(f[1..]) == '%' then Then("%", Emit(f[2..], args, k, rejected))
    else if rejected then Then("%", Emit(f[1..], args, k, true))
    else
      match ParseSpec(f[1..], args, k)
      case TooLong => Output("", Failed)
      case Parsed(spec, length, rest, k') =>
        if rest == [] then Then("%", Emit(f[1..], args, k', false))
        else
          match Convert(spec, length, rest[0], args, k')
          case Printed(text, k'') => Then(text, Emit(rest[1..], args, k'', false))
          case Unknown => Then("%", Emit(f[1..], args, k', true))
          case NotModelled => Output("", Outside)
  }

  /** A specification prints its conversion, and the rest of the format follows. */
  lemma {:induction false} EmitConversion(f: string, args: nat -> Arg, k: nat, spec: Spec, length: Length, rest: string, k': nat)
    requires f != [] && f[0] == '%' && Peek(f[1..]) != '%'
    requires ParseSpec(f[1..], args, k) == Parsed(spec, length, rest, k') && rest != []
    requires Convert(spec, length, rest[0], args, k').Printed?
    ensures var c := Convert(spec, length, rest[0], args, k');
            Emit(f, args, k, false) == Then(c.text, Emit(rest[1..], args, c.next, false))
  {
  }

  /** A format that is one specification prints one conversion. */
  lemma {:induction false} EmitOne(f: string, args: nat -> Arg, k: nat, spec: Spec, length: Length, conv: char, k': nat)
    requires f != [] && f[0] == '%' && Peek(f[1..]) != '%'
    requires ParseSpec(f[1..], args, k) == Parsed(spec, length, [conv], k')
    requires Convert(spec, length, conv, args, k').Printed?
    ensures Emit(f, args, k, false) == Output(Convert(spec, length, conv, args, k').text, Done)
  {
    var c := Convert(spec, length, conv, args, k');
    EmitConversion(f, args, k, spec, length, [conv], k');
    assert [conv][1..] == "";
    assert c.text + "" == c.text;
  }

  /** Printing an integer with any specification and scanning the text with the same conversion
      gives the integer back, unless it is zero printed with precision zero; then nothing is read. */
  lemma {:induction false} PrintThenScan(f: string, args: nat -> Arg, k: nat, spec: Spec, conv: char, k': nat)
    requires f != [] && f[0] == '%' && Peek(f[1..]) != '%'
    requires ParseSpec(f[1..], args, k) == Parsed(spec, Default, [conv], k')
    requires conv == 'd' || conv == 'u' || conv == 'x' || conv == 'X'
    requires conv == 'd' ==> Word(args(k')) != 0x8000_0000
    ensures var text := Emit(f, args, k, false).text; var w := Word(args(k'));
            if spec.precision == Some(0) && w == 0 then
              if conv == 'd' then ReadInt(text) == None else if conv == 'u' then ReadUint(text) == None else ReadHex(text) == None
            else if conv == 'd' then ReadInt(text).Some? && ReadInt(text).value.0 == AsSigned(w, TWO32)
            else if conv == 'u' then ReadUint(text).Some? && ReadUint(text).value.0 == w
            else ReadHex(text).Some? && ReadHex(text).value.0 == w
  {
    EmitOne(f, args, k, spec, Default, conv, k');
    var w := Word(args(k'));
    if conv == 'd' {
      IntRoundTripIff(spec, AsSigned(w, TWO32));
    } else if conv == 'u' {
      UintRoundTripIff(spec, w);
    } else {
      HexRoundTripIff(spec, conv, w);
    }
  }
}
