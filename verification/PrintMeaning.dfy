/** What formats mean: how a specification is written, and what each conversion prints. */
module PrintMeaning {
  import opened Arithmetic
  import opened Wrappers
  import opened Numerals
  import opened PrintSpec
  import opened Scan
  import opened PrintFormat

  // ---- How a specification is written

  /** A width or a precision: left out, written as a number, or taken from the next argument. */
  datatype Amount = Absent | Fixed(n: nat) | Star

  /** The characters '#', '0', '-', ' ', '+', ''' and 'I'. */
  predicate AllFlags(fs: string) {
    forall i :: 0 <= i < |fs| ==> fs[i] in "#0- +'I"
  }

  predicate AmountOk(a: Amount) { a.Fixed? ==> 0 < a.n < 0x8000_0000 }

  function AmountText(a: Amount): string {
    match a
    case Absent => ""
    case Fixed(n) => Digits(n, 10, false)
    case Star => "*"
  }

  /** A precision may also be zero, which is written by its dot alone. */
  function PrecisionText(p: Option<Amount>): string {
    match p
    case None => ""
    case Some(a) => "." + AmountText(a)
  }

  function LengthText(length: Length): string {
    match length
    case HH => "hh"
    case H => "h"
    case Default => ""
    case L => "l"
    case LL => "ll"
    case LongDouble => "L"
    case J => "j"
    case Z => "z"
    case T => "t"
  }

  predicate IsConversion(c: char) { c in "diouxXpcs" }

  /** A specification behind its percent sign. */
  function Written(fs: string, width: Amount, precision: Option<Amount>, length: Length, conv: char): string {
    fs + AmountText(width) + PrecisionText(precision) + LengthText(length) + [conv]
  }

  /** The 32-bit integer in an argument. */
  function IntOf(a: Arg): int { AsSigned(Word(a), TWO32) }

  function After(a: Amount, k: nat): nat { if a.Star? then k + 1 else k }

  /** What an amount stands for. */
  function AmountOf(a: Amount, args: nat -> Arg, k: nat): int {
    match a
    case Absent => 0
    case Fixed(n) => n
    case Star => IntOf(args(k))
  }

  /** The specification meant: each flag is set if its character occurs, a minus sign makes the width
      negative, and a negative precision counts as zero. */
  function Meant(fs: string, width: Amount, precision: Option<Amount>, args: nat -> Arg, k: nat): Spec {
    var w := AmountOf(width, args, k);
    Spec(Flags('#' in fs, '0' in fs, '-' in fs, ' ' in fs, '+' in fs), if '-' in fs then -w else w,
         match precision
         case None => Option.None
         case Some(a) => Option.Some(Max(AmountOf(a, args, After(width, k)), 0) as nat))
  }

  function AfterBoth(width: Amount, precision: Option<Amount>, k: nat): nat {
    match precision
    case None => After(width, k)
    case Some(a) => After(a, After(width, k))
  }

  // ---- Parsing it

  lemma {:induction false} FlagsRead(fs: string, rest: string, acc: Flags)
    requires AllFlags(fs) && (rest != [] ==> !IsFlag(rest[0]))
    ensures ParseFlags(fs + rest, acc) == (Joined(acc, fs), rest)
    decreases |fs|
  {
    if fs == [] {
      assert fs + rest == rest;
    } else {
      assert (fs + rest)[1..] == fs[1..] + rest;
      FlagsRead(fs[1..], rest, AddFlag(acc, fs[0]));
      JoinedOn(acc, fs);
    }
  }

  /** The flags set so far and those of more characters. */
  function Joined(acc: Flags, fs: string): Flags {
    Flags(acc.alternate || '#' in fs, acc.zeroPad || '0' in fs, acc.minus || '-' in fs, acc.blank || ' ' in fs,
          acc.plus || '+' in fs)
  }

  lemma JoinedOn(acc: Flags, fs: string)
    requires fs != []
    ensures Joined(acc, fs) == Joined(AddFlag(acc, fs[0]), fs[1..])
  {
    Occurs(fs, '#');
    Occurs(fs, '0');
    Occurs(fs, '-');
    Occurs(fs, ' ');
    Occurs(fs, '+');
  }

  lemma Occurs(s: string, c: char)
    requires s != []
    ensures c in s <==> c == s[0] || c in s[1..]
  {
    assert s == [s[0]] + s[1..];
  }

  /** A number in a format reads as itself and does not begin with a zero. */
  lemma {:induction false} NumberRead(n: nat, rest: string)
    requires 0 < n < 0x8000_0000 && (rest != [] ==> !IsDigit(rest[0]))
    ensures var ds := Digits(n, 10, false);
            && 0 < |ds| < MAX_FORMAT_SCAN && '1' <= ds[0] <= '9' && Run(ds + rest, 10) == |ds|
            && (ds + rest)[..|ds|] == ds && (ds + rest)[|ds|..] == rest
            && Numeral(ds, 10) && ValueOf(ds, 10) == n
  {
    var ds := Digits(n, 10, false);
    DigitsFit(n, 10, false);
    DigitsAreNumeral(n, 10, false);
    ZeroAlone(n, 10, false);
    assert forall i :: 0 <= i < |ds| ==> IsDigit(ds[i]);
    RunStops(ds, rest, 10);
  }

  lemma {:induction false} WidthRead(a: Amount, rest: string, args: nat -> Arg, k: nat)
    requires AmountOk(a) && rest != [] && !IsDigit(rest[0]) && rest[0] != '*'
    ensures ParseWidth(AmountText(a) + rest, args, k) == Number(AmountOf(a, args, k), rest, After(a, k))
  {
    var f := AmountText(a) + rest;
    match a
    case Absent =>
      assert f == rest && Run(f, 10) == 0 && f[..0] == "" && f[0..] == f;
    case Fixed(n) =>
      NumberRead(n, rest);
    case Star =>
      assert f[1..] == rest;
  }

  lemma {:induction false} PrecisionRead(p: Option<Amount>, rest: string, args: nat -> Arg, k: nat)
    requires p.Some? ==> AmountOk(p.value)
    requires rest != [] && !IsDigit(rest[0]) && rest[0] != '*' && rest[0] != '-' && rest[0] != '.'
    ensures ParsePrecision(PrecisionText(p) + rest, args, k) ==
            match p
            case None => Number(SIZE_MAX, rest, k)
            case Some(a) => Number(Max(AmountOf(a, args, k), 0), rest, After(a, k))
  {
    var f := PrecisionText(p) + rest;
    match p
    case None =>
      assert f == rest;
    case Some(a) =>
      DotRead(a, f, AmountText(a) + rest, rest, args, k);
  }

  lemma {:induction false} DotRead(a: Amount, f: string, g: string, rest: string, args: nat -> Arg, k: nat)
    requires AmountOk(a) && rest != [] && !IsDigit(rest[0]) && rest[0] != '*' && rest[0] != '-'
    requires g == AmountText(a) + rest && f == "." + g
    ensures ParsePrecision(f, args, k) == Number(Max(AmountOf(a, args, k), 0), rest, After(a, k))
  {
    assert f[1..] == g;
    match a
    case Absent =>
      assert g == rest && Run(g, 10) == 0 && g[..0] == "" && g[0..] == g;
    case Fixed(n) =>
      FixedRead(n, f, g, rest, args, k);
    case Star =>
      assert g[1..] == rest;
  }

  lemma {:induction false} FixedRead(n: nat, f: string, g: string, rest: string, args: nat -> Arg, k: nat)
    requires 0 < n < 0x8000_0000 && rest != [] && !IsDigit(rest[0])
    requires g == Digits(n, 10, false) + rest && f != [] && f[0] == '.' && f[1..] == g
    ensures ParsePrecision(f, args, k) == Number(n, rest, k)
  {
    NumberRead(n, rest);
    SmallMod(n);
  }

  lemma LengthRead(length: Length, conv: char, rest: string)
    requires IsConversion(conv)
    ensures var f := LengthText(length) + ([conv] + rest);
            ParseLength(f) == (length, |LengthText(length)|) && f[|LengthText(length)|..] == [conv] + rest
  {
    var t := LengthText(length);
    var f := t + ([conv] + rest);
    assert f[|t|] == conv;
  }

  /** A specification reads as it is meant, whatever follows its conversion character. */
  lemma {:induction false} SpecRead(fs: string, width: Amount, precision: Option<Amount>, length: Length, conv: char,
                                    rest: string, args: nat -> Arg, k: nat)
    requires AllFlags(fs) && AmountOk(width) && (precision.Some? ==> AmountOk(precision.value)) && IsConversion(conv)
    ensures ParseSpec(Written(fs, width, precision, length, conv) + rest, args, k) ==
            Parsed(Meant(fs, width, precision, args, k), length, [conv] + rest, AfterBoth(width, precision, k))
  {
    var h := LengthText(length) + ([conv] + rest);
    var g := PrecisionText(precision) + h;
    var f := AmountText(width) + g;
    WrittenSplits(fs, width, precision, length, conv, rest);
    HeadOfLength(length, conv, rest);
    LengthRead(length, conv, rest);
    PrecisionRead(precision, h, args, After(width, k));
    HeadOfPrecision(precision, h);
    WidthRead(width, g, args, k);
    NoFlag(width, g);
    FlagsRead(fs, f, NO_FLAGS);
    Composed(fs + f, f, g, h, width, precision, length, [conv] + rest, args, k, fs);
  }

  lemma WrittenSplits(fs: string, width: Amount, precision: Option<Amount>, length: Length, conv: char, rest: string)
    ensures Written(fs, width, precision, length, conv) + rest ==
            fs + (AmountText(width) + (PrecisionText(precision) + (LengthText(length) + ([conv] + rest))))
  {
    Associate(fs, AmountText(width), PrecisionText(precision), LengthText(length), [conv], rest);
  }

  lemma Associate(a: string, b: string, c: string, d: string, e: string, f: string)
    ensures a + b + c + d + e + f == a + (b + (c + (d + (e + f))))
  {
  }

  /** A character that cannot continue flags, width or precision. */
  predicate Stops(c: char) { !IsDigit(c) && c != '*' && c != '-' && c != '.' && !IsFlag(c) }

  lemma HeadOfLength(length: Length, conv: char, rest: string)
    requires IsConversion(conv)
    ensures Stops((LengthText(length) + ([conv] + rest))[0])
  {
  }

  lemma HeadOfPrecision(p: Option<Amount>, h: string)
    requires h != [] && Stops(h[0])
    ensures var g := PrecisionText(p) + h; g != [] && !IsDigit(g[0]) && g[0] != '*' && !IsFlag(g[0])
  {
  }

  /** The parts put together. */
  lemma {:induction false} Composed(all: string, f: string, g: string, h: string, width: Amount, precision: Option<Amount>,
                                    length: Length, rest: string, args: nat -> Arg, k: nat, fs: string)
    requires AmountOk(width) && (precision.Some? ==> AmountOk(precision.value))
    requires ParseFlags(all, NO_FLAGS) == (Flags('#' in fs, '0' in fs, '-' in fs, ' ' in fs, '+' in fs), f)
    requires ParseWidth(f, args, k) == Number(AmountOf(width, args, k), g, After(width, k))
    requires ParsePrecision(g, args, After(width, k)) ==
             match precision
             case None => Number(SIZE_MAX, h, After(width, k))
             case Some(a) => Number(Max(AmountOf(a, args, After(width, k)), 0), h, After(a, After(width, k)))
    requires ParseLength(h) == (length, |LengthText(length)|) && h[|LengthText(length)|..] == rest
    ensures ParseSpec(all, args, k) == Parsed(Meant(fs, width, precision, args, k), length, rest, AfterBoth(width, precision, k))
  {
  }

  lemma NoFlag(width: Amount, g: string)
    requires AmountOk(width) && g != [] && !IsFlag(g[0]) && !IsDigit(g[0])
    ensures var f := AmountText(width) + g; f != [] && !IsFlag(f[0])
  {
    if width.Fixed? {
      NumberRead(width.n, g);
    }
  }

  // ---- The format as a whole

  /** A specification prints what its conversion prints for it, and the rest of the format follows. */
  lemma {:induction false} SpecPrints(fs: string, width: Amount, precision: Option<Amount>, length: Length, conv: char,
                                      rest: string, args: nat -> Arg, k: nat, text: string, f: string)
    requires AllFlags(fs) && AmountOk(width) && (precision.Some? ==> AmountOk(precision.value)) && IsConversion(conv)
    requires Convert(Meant(fs, width, precision, args, k), length, conv, args, AfterBoth(width, precision, k)) ==
             Printed(text, AfterBoth(width, precision, k) + 1)
    requires f == "%" + Written(fs, width, precision, length, conv) + rest
    ensures Emit(f, args, k, false) == Then(text, Emit(rest, args, AfterBoth(width, precision, k) + 1, false))
  {
    Behind(f, Written(fs, width, precision, length, conv), rest);
    NoPercent(fs, width, precision, length, conv, rest);
    SpecRead(fs, width, precision, length, conv, rest, args, k);
    OnePrints(f, args, k, Meant(fs, width, precision, args, k), length, conv, rest, AfterBoth(width, precision, k), text);
  }

  lemma Behind(f: string, w: string, rest: string)
    requires f == "%" + w + rest
    ensures f != [] && f[0] == '%' && f[1..] == w + rest
  {
  }

  lemma {:induction false} OnePrints(f: string, args: nat -> Arg, k: nat, spec: Spec, length: Length, conv: char, rest: string,
                                     k': nat, text: string)
    requires f != [] && f[0] == '%' && Peek(f[1..]) != '%'
    requires ParseSpec(f[1..], args, k) == Parsed(spec, length, [conv] + rest, k')
    requires Convert(spec, length, conv, args, k') == Printed(text, k' + 1)
    ensures Emit(f, args, k, false) == Then(text, Emit(rest, args, k' + 1, false))
  {
    EmitConversion(f, args, k, spec, length, [conv] + rest, k');
    assert ([conv] + rest)[1..] == rest;
  }

  lemma NoPercent(fs: string, width: Amount, precision: Option<Amount>, length: Length, conv: char, rest: string)
    requires AllFlags(fs) && AmountOk(width) && IsConversion(conv)
    ensures Peek(Written(fs, width, precision, length, conv) + rest) != '%'
  {
    WrittenSplits(fs, width, precision, length, conv, rest);
    var h := LengthText(length) + ([conv] + rest);
    HeadOfLength(length, conv, rest);
    HeadOfPrecision(precision, h);
    if fs == [] && width.Fixed? {
      NumberRead(width.n, PrecisionText(precision) + h);
    }
  }

  /** Text without percent signs prints as it stands. */
  lemma {:induction false} TextPrints(text: string, rest: string, args: nat -> Arg, k: nat)
    requires 0 < |text| < 4096 && '%' !in text && (rest != [] ==> rest[0] == '%')
    ensures Emit(text + rest, args, k, false) == Then(text, Emit(rest, args, k, false))
  {
    LiteralIs(text, rest);
    assert (text + rest)[..|text|] == text && (text + rest)[|text|..] == rest;
  }

  lemma {:induction false} LiteralIs(text: string, rest: string)
    requires '%' !in text && (rest != [] ==> rest[0] == '%')
    ensures Literal(text + rest) == |text|
  {
    if text == [] {
      assert text + rest == rest;
    } else {
      assert (text + rest)[1..] == text[1..] + rest;
      LiteralIs(text[1..], rest);
    }
  }

  /** Two percent signs print one. */
  lemma {:induction false} PercentPrints(rest: string, args: nat -> Arg, k: nat)
    ensures Emit("%%" + rest, args, k, false) == Then("%", Emit(rest, args, k, false))
  {
    assert ("%%" + rest)[2..] == rest && ("%%" + rest)[1..] == "%" + rest;
  }

  // ---- Characters and strings

  /** `n` spaces on the left, or on the right if there is a minus flag. */
  predicate Fielded(text: string, body: string, minus: bool, n: nat) {
    && |text| == n + |body|
    && (if minus then text[..|body|] == body && forall i :: |body| <= i < |text| ==> text[i] == ' '
        else text[n..] == body && forall i :: 0 <= i < n ==> text[i] == ' ')
  }

  lemma PaddedIs(s: Spec, body: string)
    ensures Fielded(Padded(s, body), body, s.flags.minus, if |body| < Abs(s.width) then Abs(s.width) - |body| else 0)
  {
    var n := Gap(|body|, Abs(s.width));
    assert |Spaces(n)| == n && forall i :: 0 <= i < n ==> Spaces(n)[i] == ' ';
  }

  /** The string itself up to the precision and up to 8192 characters; "(null)" stands for a null pointer. */
  predicate Shown(body: string, text: Option<string>, precision: Option<nat>) {
    var whole := match text case Some(t) => t case None => "(null)";
    && |body| <= |whole| && body == whole[..|body|]
    && (precision.None? ==> |body| == Min(|whole|, 8192))
    && (precision.Some? ==> |body| == Min(|whole|, Min(precision.value, 8192)))
  }

  lemma BodyIs(s: Spec, a: Arg)
    ensures Shown(StringBody(s, a), a.text, s.precision)
  {
  }

  lemma ConvertString(s: Spec, args: nat -> Arg, k: nat)
    ensures Convert(s, Default, 's', args, k) == Printed(Padded(s, StringBody(s, args(k))), k + 1)
  {
  }

  lemma ConvertChar(s: Spec, args: nat -> Arg, k: nat)
    ensures Convert(s, Default, 'c', args, k) == Printed(Padded(s, [(args(k).word % 256) as char]), k + 1)
  {
    LowByte(args(k).word);
  }

  /** The spaces that fill a field of the width asked for. */
  function Blanks(width: Amount, args: nat -> Arg, k: nat, body: string): nat {
    var w := Abs(AmountOf(width, args, k));
    if |body| < w then w - |body| else 0
  }

  lemma FieldIs(fs: string, width: Amount, precision: Option<Amount>, args: nat -> Arg, k: nat, body: string)
    ensures Fielded(Padded(Meant(fs, width, precision, args, k), body), body, '-' in fs, Blanks(width, args, k, body))
  {
    PaddedIs(Meant(fs, width, precision, args, k), body);
  }

  /** `%s` prints the string its argument points to, in a field as wide as asked for. */
  lemma {:induction false} StringPrints(fs: string, width: Amount, precision: Option<Amount>, rest: string, args: nat -> Arg, k: nat,
                                        f: string) returns (text: string, body: string)
    requires AllFlags(fs) && AmountOk(width) && (precision.Some? ==> AmountOk(precision.value))
    requires f == "%" + Written(fs, width, precision, Default, 's') + rest
    ensures var k' := AfterBoth(width, precision, k);
            && Emit(f, args, k, false) == Then(text, Emit(rest, args, k' + 1, false))
            && Shown(body, args(k').text, Meant(fs, width, precision, args, k).precision)
            && Fielded(text, body, '-' in fs, Blanks(width, args, k, body))
  {
    var s, k' := Meant(fs, width, precision, args, k), AfterBoth(width, precision, k);
    body := StringBody(s, args(k'));
    text := Padded(s, body);
    ConvertString(s, args, k');
    SpecPrints(fs, width, precision, Default, 's', rest, args, k, text, f);
    BodyIs(s, args(k'));
    FieldIs(fs, width, precision, args, k, body);
  }

  /** The plain form: the string as it is. */
  lemma {:induction false} PlainString(t: string, rest: string, args: nat -> Arg, k: nat, f: string)
    requires args(k).text == Some(t) && |t| <= 8192 && f == "%s" + rest
    ensures Emit(f, args, k, false) == Then(t, Emit(rest, args, k + 1, false))
  {
    var s := Spec(NO_FLAGS, 0, Option.None);
    BareRead('s', rest, args, k, f);
    PlainConvert(s, t, args, k);
    OnePrints(f, args, k, s, Default, 's', rest, k, t);
  }

  lemma {:induction false} OnlyString(t: string, args: nat -> Arg)
    requires args(0).text == Some(t) && |t| <= 8192
    ensures Emit("%s", args, 0, false) == Output(t, Done)
  {
    assert "%s" + "" == "%s" && t + "" == t;
    PlainString(t, "", args, 0, "%s");
    assert Emit("", args, 1, false) == Output("", Done);
  }

  /** A conversion character on its own is a specification without anything. */
  lemma {:induction false} BareRead(conv: char, rest: string, args: nat -> Arg, k: nat, f: string)
    requires IsConversion(conv) && f == "%" + [conv] + rest
    ensures f[0] == '%' && Peek(f[1..]) != '%'
    ensures ParseSpec(f[1..], args, k) == Parsed(Spec(NO_FLAGS, 0, Option.None), Default, [conv] + rest, k)
  {
    assert Written("", Absent, None, Default, conv) == [conv];
    Behind(f, [conv], rest);
    SpecRead("", Absent, None, Default, conv, rest, args, k);
  }

  lemma PlainConvert(s: Spec, t: string, args: nat -> Arg, k: nat)
    requires s == Spec(NO_FLAGS, 0, Option.None) && args(k).text == Some(t) && |t| <= 8192
    ensures Convert(s, Default, 's', args, k) == Printed(t, k + 1)
  {
    ConvertString(s, args, k);
    BodyIs(s, args(k));
    ShownWhole(StringBody(s, args(k)), t);
    PaddedIs(s, t);
    FieldOfNone(Padded(s, t), t, false);
  }

  lemma FieldOfNone(text: string, body: string, minus: bool)
    requires Fielded(text, body, minus, 0)
    ensures text == body
  {
    assert text[0..] == text;
  }

  lemma ShownWhole(body: string, t: string)
    requires Shown(body, Some(t), None) && |t| <= 8192
    ensures body == t
  {
    assert t[..|t|] == t;
  }

  /** `%c` prints the character in the low byte of its argument, in a field as wide as asked for. */
  lemma {:induction false} CharPrints(fs: string, width: Amount, precision: Option<Amount>, rest: string, args: nat -> Arg, k: nat,
                                      f: string) returns (text: string)
    requires AllFlags(fs) && AmountOk(width) && (precision.Some? ==> AmountOk(precision.value))
    requires f == "%" + Written(fs, width, precision, Default, 'c') + rest
    ensures var k' := AfterBoth(width, precision, k); var body := [(args(k').word % 256) as char];
            && Emit(f, args, k, false) == Then(text, Emit(rest, args, k' + 1, false))
            && Fielded(text, body, '-' in fs, Blanks(width, args, k, body))
  {
    var s, k' := Meant(fs, width, precision, args, k), AfterBoth(width, precision, k);
    var body := [(args(k').word % 256) as char];
    text := Padded(s, body);
    ConvertChar(s, args, k');
    SpecPrints(fs, width, precision, Default, 'c', rest, args, k, text, f);
    FieldIs(fs, width, precision, args, k, body);
  }

  lemma {:induction false} PlainChar(rest: string, args: nat -> Arg, k: nat, f: string)
    requires f == "%c" + rest
    ensures Emit(f, args, k, false) == Then([(args(k).word % 256) as char], Emit(rest, args, k + 1, false))
  {
    var s, body := Spec(NO_FLAGS, 0, Option.None), [(args(k).word % 256) as char];
    assert "%" + ['c'] == "%c";
    BareRead('c', rest, args, k, f);
    PlainConvertChar(s, args, k, body);
    OnePrints(f, args, k, s, Default, 'c', rest, k, body);
  }

  lemma {:induction false} OnlyChar(args: nat -> Arg)
    ensures Emit("%c", args, 0, false) == Output([(args(0).word % 256) as char], Done)
  {
    var body := [(args(0).word % 256) as char];
    assert "%c" + "" == "%c" && body + "" == body;
    PlainChar("", args, 0, "%c");
    assert Emit("", args, 1, false) == Output("", Done);
  }

  lemma PlainConvertChar(s: Spec, args: nat -> Arg, k: nat, body: string)
    requires s == Spec(NO_FLAGS, 0, Option.None) && body == [(args(k).word % 256) as char]
    ensures Convert(s, Default, 'c', args, k) == Printed(body, k + 1)
  {
    ConvertChar(s, args, k);
    PaddedIs(s, body);
    FieldOfNone(Padded(s, body), body, false);
  }

  lemma LowByte(w: nat)
    ensures w % TWO32 % 256 == w % 256
  {
    var q := w / TWO32;
    assert w == w % TWO32 + 256 * (16777216 * q);
    ByteOf(w % TWO32, 16777216 * q);
  }

  lemma ByteOf(x: nat, q: nat)
    ensures (x + 256 * q) % 256 == x % 256
  {
  }

  // ---- Integers

  /** The argument holds this number, as `%d` with a length modifier takes it. */
  predicate HoldsInt(a: Arg, length: Length, v: int) {
    match length
    case LL => -0x8000_0000_0000_0000 <= v < 0x8000_0000_0000_0000 && a.wide % TWO64 == v % TWO64
    case J => -0x8000_0000_0000_0000 <= v < 0x8000_0000_0000_0000 && a.wide % TWO64 == v % TWO64
    case Z => v == a.word % TWO32
    case LongDouble => false
    case _ => -0x8000_0000 <= v < 0x8000_0000 && a.word % TWO32 == v % TWO32
  }

  /** The same for the unsigned conversions; `%tu` extends the sign to 64 bits. */
  predicate HoldsNat(a: Arg, length: Length, v: nat) {
    match length
    case LL => v == a.wide % TWO64
    case J => v == a.wide % TWO64
    case T => exists i :: -0x8000_0000 <= i < 0x8000_0000 && a.word % TWO32 == i % TWO32 && v == i % TWO64
    case LongDouble => false
    case _ => v == a.word % TWO32
  }

  lemma SignedIs(v: int, half: nat)
    requires -(half as int) <= v < half
    ensures AsSigned(v % (2 * half), 2 * half) == v
  {
    Wraps(v, 2 * half);
  }

  lemma Wraps(v: int, m: nat)
    requires -(m as int) <= v < m && m > 0
    ensures v % m == if v < 0 then v + m else v
  {
    var q := v / m;
    assert v == q * m + v % m;
    MulBounds(q, m);
    MulBounds(q + 1, m);
    assert (q + 1) * m == q * m + m;
  }

  lemma SignedArgIs(a: Arg, length: Length, v: int)
    requires HoldsInt(a, length, v)
    ensures SignedArg(a, length) == v
  {
    if length == LL || length == J {
      SignedIs(v, 0x8000_0000_0000_0000);
    } else if length != Z {
      SignedIs(v, 0x8000_0000);
    }
  }

  lemma UnsignedArgIs(a: Arg, length: Length, v: nat)
    requires HoldsNat(a, length, v)
    ensures UnsignedArg(a, length) == v
  {
    if length == T {
      var i :| -0x8000_0000 <= i < 0x8000_0000 && a.word % TWO32 == i % TWO32 && v == i % TWO64;
      Wraps(i, TWO32);
      Wraps(i, TWO64);
    }
  }

  /** What stands in front of the digits: a minus sign, or for signed numbers a plus sign or a space if
      asked for, the plus sign first; then the mark of the base if asked for, except for zero. */
  function Front(f: Flags, conv: char, v: int): string {
    var sign := if v < 0 then "-" else if conv != 'd' then "" else if f.plus then "+" else if f.blank then " " else "";
    var mark := if !f.alternate || v == 0 then "" else if conv == 'x' then "0x" else if conv == 'X' then "0X"
                else if conv == 'o' then "0" else "";
    sign + mark
  }

  /** Zeros between front and digits: up to the width if the zero flag counts, which it does not with a
      precision or a field filled on the right; otherwise up to the precision. */
  function Filling(s: Spec, n: nat): nat {
    var to := if s.precision.Some? then s.precision.value else if s.flags.zeroPad && s.width >= 0 then s.width else 0;
    if n < to then to - n else 0
  }

  /** The spaces beside a number with `front` characters in front of `n` digits. */
  function Beside(s: Spec, front: nat, n: nat): nat {
    var taken := front + if s.precision.Some? && n < s.precision.value then s.precision.value else n;
    if s.precision.None? && s.flags.zeroPad && s.width >= 0 then 0 else if taken < Abs(s.width) then Abs(s.width) - taken else 0
  }

  /** A number in its field: front, zeros and the usual numeral of the base, in lower case but for X, with
      spaces on the left, or on the right if the width is negative. */
  ghost predicate Laid(text: string, s: Spec, conv: char, v: int) {
    exists digits :: Numerates(digits, conv, v) && LaidWith(text, s, Front(s.flags, conv, v), v, digits)
  }

  /** The usual numeral of the magnitude in the base of the conversion. */
  predicate Numerates(digits: string, conv: char, v: int) {
    NumeralOf(digits, Abs(v), if conv == 'o' then 8 else if conv == 'x' || conv == 'X' then 16 else 10, conv == 'X')
  }

  predicate LaidWith(text: string, s: Spec, front: string, v: int, digits: string) {
    var body := if s.precision == Some(0) && v == 0 then "" else digits;
    Fielded(text, front + Zeros(Filling(s, |front| + |body|)) + body, s.width < 0, Beside(s, |front|, |body|))
  }

  lemma FrontIs(f: Flags, conv: char, v: int)
    ensures Front(f, conv, v) == Sign(f, conv, v < 0) + Radix(f, conv, Abs(v))
  {
  }

  /** Every integer is laid out so. */
  lemma {:induction false} TextIsLaid(s: Spec, conv: char, v: int)
    requires conv == 'd' || conv == 'u' || conv == 'o' || conv == 'x' || conv == 'X'
    ensures Laid(Text(IntParts(s, conv, v < 0, Abs(v))), s, conv, v)
  {
    var p := IntParts(s, conv, v < 0, Abs(v));
    var digits := Digits(Abs(v), Base(conv), conv == 'X');
    DigitsAreNumeral(Abs(v), Base(conv), conv == 'X');
    PartsAre(s, conv, v, digits);
    PartsLaid(s, p, v, digits);
  }

  /** The parts of a number by their meaning. */
  predicate MeantParts(s: Spec, p: Parts, v: int, digits: string) {
    && p.digits == (if s.precision == Some(0) && v == 0 then "" else digits)
    && p.zeros == Filling(s, |p.prefix| + |p.digits|)
    && (if s.width < 0 then p.left == 0 && p.right == Beside(s, |p.prefix|, |p.digits|)
        else p.right == 0 && p.left == Beside(s, |p.prefix|, |p.digits|))
  }

  lemma {:induction false} PartsAre(s: Spec, conv: char, v: int, digits: string)
    requires digits == Digits(Abs(v), Base(conv), conv == 'X')
    ensures var p := IntParts(s, conv, v < 0, Abs(v)); p.prefix == Front(s.flags, conv, v) && MeantParts(s, p, v, digits)
  {
    FrontIs(s.flags, conv, v);
  }

  lemma PartsLaid(s: Spec, p: Parts, v: int, digits: string)
    requires MeantParts(s, p, v, digits)
    ensures LaidWith(Text(p), s, p.prefix, v, digits)
  {
    SpacesAround(p);
  }

  lemma SpacesAround(p: Parts)
    requires p.left == 0 || p.right == 0
    ensures Fielded(Text(p), p.prefix + Zeros(p.zeros) + p.digits, p.left == 0, p.left + p.right)
    ensures Fielded(Text(p), p.prefix + Zeros(p.zeros) + p.digits, p.right != 0, p.left + p.right)
  {
    var core := p.prefix + Zeros(p.zeros) + p.digits;
    assert Text(p) == Spaces(p.left) + core + Spaces(p.right);
    assert |Spaces(p.left)| == p.left && |Spaces(p.right)| == p.right;
  }

  /** The field is as wide as asked for exactly when there is no front, or no precision beyond the digits,
      or the number is that wide anyway: the zeros count the front, the spaces do not. */
  lemma FieldFilledIff(text: string, s: Spec, front: string, v: int, digits: string)
    requires LaidWith(text, s, front, v, digits)
    ensures var body := if s.precision == Some(0) && v == 0 then "" else digits;
            |text| >= Abs(s.width) <==>
            || front == "" || s.precision.None? || s.precision.value <= |body|
            || Max(|front| + |body|, s.precision.value) >= Abs(s.width)
  {
    var body := if s.precision == Some(0) && v == 0 then "" else digits;
    assert |Zeros(Filling(s, |front| + |body|))| == Filling(s, |front| + |body|);
  }

  /** "%6.3d" of minus five is one space short. */
  lemma FieldFallsShort()
    ensures |Text(IntParts(Spec(NO_FLAGS, 6, Option.Some(3)), 'd', true, 5))| == 5
  {
    var p := IntParts(Spec(NO_FLAGS, 6, Option.Some(3)), 'd', true, 5);
    assert Digits(5, 10, false) == "5";
    assert p.left == 2 && p.prefix == "-" && p.zeros == 1 && p.digits == "5" && p.right == 0;
    assert |Spaces(2)| == 2 && |Zeros(1)| == 1 && |Spaces(0)| == 0;
  }

  lemma ConvertInt(s: Spec, length: Length, conv: char, args: nat -> Arg, k: nat)
    requires IsIntConv(conv) && length != LongDouble
    ensures Convert(s, length, conv, args, k) == Printed(IntText(s, length, conv, args(k)), k + 1)
  {
  }

  /** `%d` and `%i` print the number their argument holds. */
  lemma {:induction false} SignedPrints(fs: string, width: Amount, precision: Option<Amount>, length: Length, conv: char, rest: string,
                                        args: nat -> Arg, k: nat, f: string, v: int) returns (text: string)
    requires AllFlags(fs) && AmountOk(width) && (precision.Some? ==> AmountOk(precision.value)) && (conv == 'd' || conv == 'i')
    requires f == "%" + Written(fs, width, precision, length, conv) + rest
    requires HoldsInt(args(AfterBoth(width, precision, k)), length, v)
    ensures Emit(f, args, k, false) == Then(text, Emit(rest, args, AfterBoth(width, precision, k) + 1, false))
    ensures Laid(text, Meant(fs, width, precision, args, k), 'd', v)
  {
    var s, k' := Meant(fs, width, precision, args, k), AfterBoth(width, precision, k);
    text := Text(IntParts(s, 'd', v < 0, Abs(v)));
    SignedArgIs(args(k'), length, v);
    ConvertInt(s, length, conv, args, k');
    SpecPrints(fs, width, precision, length, conv, rest, args, k, text, f);
    TextIsLaid(s, 'd', v);
  }

  /** `%u`, `%o`, `%x` and `%X` print the number their argument holds. */
  lemma {:induction false} UnsignedPrints(fs: string, width: Amount, precision: Option<Amount>, length: Length, conv: char, rest: string,
                                          args: nat -> Arg, k: nat, f: string, v: nat) returns (text: string)
    requires AllFlags(fs) && AmountOk(width) && (precision.Some? ==> AmountOk(precision.value))
    requires conv == 'u' || conv == 'o' || conv == 'x' || conv == 'X'
    requires f == "%" + Written(fs, width, precision, length, conv) + rest
    requires HoldsNat(args(AfterBoth(width, precision, k)), length, v)
    ensures Emit(f, args, k, false) == Then(text, Emit(rest, args, AfterBoth(width, precision, k) + 1, false))
    ensures Laid(text, Meant(fs, width, precision, args, k), conv, v)
  {
    var s, k' := Meant(fs, width, precision, args, k), AfterBoth(width, precision, k);
    text := Text(IntParts(s, conv, false, v));
    UnsignedArgIs(args(k'), length, v);
    ConvertInt(s, length, conv, args, k');
    SpecPrints(fs, width, precision, length, conv, rest, args, k, text, f);
    TextIsLaid(s, conv, v);
  }

  /** The mark of the base the other way round. */
  function Flipped(s: Spec): Spec { s.(flags := s.flags.(alternate := !s.flags.alternate)) }

  /** `%p` prints the word as `%x` does, with the mark of the base unless the flag for it is there. */
  lemma {:induction false} PointerPrints(fs: string, width: Amount, precision: Option<Amount>, length: Length, rest: string,
                                         args: nat -> Arg, k: nat, f: string) returns (text: string)
    requires AllFlags(fs) && AmountOk(width) && (precision.Some? ==> AmountOk(precision.value)) && length != LongDouble
    requires f == "%" + Written(fs, width, precision, length, 'p') + rest
    ensures Emit(f, args, k, false) == Then(text, Emit(rest, args, AfterBoth(width, precision, k) + 1, false))
    ensures Laid(text, Flipped(Meant(fs, width, precision, args, k)), 'x', args(AfterBoth(width, precision, k)).word % TWO32)
  {
    var s, k' := Meant(fs, width, precision, args, k), AfterBoth(width, precision, k);
    text := Text(IntParts(Flipped(s), 'x', false, Word(args(k'))));
    ConvertInt(s, length, 'p', args, k');
    SpecPrints(fs, width, precision, length, 'p', rest, args, k, text, f);
    TextIsLaid(Flipped(s), 'x', Word(args(k')));
  }

  /** The plain forms: a minus sign if need be and the usual numeral. */
  lemma {:induction false} PlainInteger(conv: char, rest: string, args: nat -> Arg, k: nat, f: string, v: int) returns (digits: string)
    requires conv == 'd' || conv == 'u' || conv == 'o' || conv == 'x' || conv == 'X'
    requires f == "%" + [conv] + rest
    requires if conv == 'd' then HoldsInt(args(k), Default, v) else v >= 0 && HoldsNat(args(k), Default, v)
    ensures Emit(f, args, k, false) == Then((if v < 0 then "-" else "") + digits, Emit(rest, args, k + 1, false))
    ensures Numerates(digits, conv, v)
  {
    var s := Spec(NO_FLAGS, 0, Option.None);
    digits := Digits(Abs(v), Base(conv), conv == 'X');
    DigitsAreNumeral(Abs(v), Base(conv), conv == 'X');
    BareRead(conv, rest, args, k, f);
    PlainConvertInt(s, conv, args, k, v, digits);
    OnePrints(f, args, k, s, Default, conv, rest, k, (if v < 0 then "-" else "") + digits);
  }

  lemma {:induction false} PlainConvertInt(s: Spec, conv: char, args: nat -> Arg, k: nat, v: int, digits: string)
    requires s == Spec(NO_FLAGS, 0, Option.None) && (conv == 'd' || conv == 'u' || conv == 'o' || conv == 'x' || conv == 'X')
    requires if conv == 'd' then HoldsInt(args(k), Default, v) else v >= 0 && HoldsNat(args(k), Default, v)
    requires digits == Digits(Abs(v), Base(conv), conv == 'X')
    ensures Convert(s, Default, conv, args, k) == Printed((if v < 0 then "-" else "") + digits, k + 1)
  {
    if conv == 'd' {
      SignedArgIs(args(k), Default, v);
    } else {
      UnsignedArgIs(args(k), Default, v);
    }
    ConvertInt(s, Default, conv, args, k);
    PlainText(s, conv, v < 0, Abs(v));
  }

  lemma {:induction false} PlainText(s: Spec, conv: char, negative: bool, v: nat)
    requires s == Spec(NO_FLAGS, 0, Option.None)
    ensures Text(IntParts(s, conv, negative, v)) == (if negative then "-" else "") + Digits(v, Base(conv), conv == 'X')
  {
    var p := IntParts(s, conv, negative, v);
    assert p.left == 0 && p.right == 0 && p.zeros == 0;
    assert Spaces(0) == "" && Zeros(0) == "";
  }
}
