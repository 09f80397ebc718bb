/** `vcbprintf` printing into the bounded buffer of `vsnprintf`. */
module PrintEngine {
  import opened Arithmetic
  import opened Wrappers
  import opened Numerals
  import opened PrintSpec
  import opened Scan
  import opened PrintFormat
  import opened PrintMeaning

  const INT32_MAX := 0x7FFF_FFFF

  /** The first `n` characters. */
  function Cut(s: string, n: nat): string { if |s| <= n then s else s[..n] }

  lemma CutTwice(x: string, a: string, b: string, n: nat)
    ensures |x + a| > n ==> Cut(x + (a + b), n) == Cut(x + a, n)
    ensures |x + a| <= n ==> x + (a + b) == (x + a) + b
  {
    assert x + (a + b) == (x + a) + b;
  }

  /** The state behind the callback: the buffer, its capacity without the terminator, and the
      number of characters taken so far. */
  class Sink {
    const str: array<char>
    const size: nat
    var written: nat

    ghost predicate Valid()
      reads this
    {
      written <= size <= str.Length
    }

    ghost function Text(): string
      reads this, str
      requires Valid()
    {
      str[..written]
    }

    constructor (str: array<char>, size: nat)
      requires size <= str.Length
      ensures Valid() && this.str == str && this.size == size && Text() == ""
    {
      this.str, this.size, written := str, size, 0;
    }

    /** `vsnprintf_callback`: take as much as there is room for. */
    method Callback(s: string) returns (n: nat)
      requires Valid()
      modifies this, str
      ensures Valid() && Text() == Cut(old(Text()) + s, size)
      ensures n == |s| <==> |old(Text()) + s| <= size
      ensures str[size..] == old(str[size..])
    {
      if size > 0 && written < size {
        var available := size - written;
        var possible := if |s| < available then |s| else available;
        forall i | 0 <= i < possible {
          str[written + i] := s[i];
        }
        ghost var before := old(Text());
        assert str[..written + possible] == before + s[..possible];
        CutTaken(before, s, size, possible);
        written := written + possible;
        return possible;
      }
      return 0;
    }
  }

  lemma CutTaken(before: string, s: string, size: nat, possible: nat)
    requires |before| <= size && possible == if |s| < size - |before| then |s| else size - |before|
    ensures Cut(before + s, size) == before + s[..possible]
  {
  }

  /** One callback for a string; false when it took less. */
  method Put(sink: Sink, s: string) returns (ok: bool)
    requires sink.Valid()
    modifies sink, sink.str
    ensures sink.Valid() && sink.Text() == Cut(old(sink.Text()) + s, sink.size)
    ensures ok <==> |old(sink.Text()) + s| <= sink.size
    ensures sink.str[sink.size..] == old(sink.str[sink.size..])
  {
    var n := sink.Callback(s);
    ok := n == |s|;
  }

  /** A padding loop: one character at a time from count `from` up to `to`. */
  method Fill(sink: Sink, c: char, from: nat, to: nat) returns (ok: bool)
    requires sink.Valid()
    modifies sink, sink.str
    ensures sink.Valid() && sink.Text() == Cut(old(sink.Text()) + seq(Gap(from, to), _ => c), sink.size)
    ensures ok <==> |old(sink.Text())| + Gap(from, to) <= sink.size
    ensures sink.str[sink.size..] == old(sink.str[sink.size..])
  {
    ghost var before := sink.Text();
    ghost var all := seq(Gap(from, to), _ => c);
    var i := from;
    while i < to
      invariant from <= i && (i <= to || i == from)
      invariant sink.Valid() && sink.Text() == before + all[..i - from]
      invariant sink.str[sink.size..] == old(sink.str[sink.size..])
    {
      var one := Put(sink, [c]);
      CutOne(before, all, i - from, sink.size);
      if !one {
        return false;
      }
      i := i + 1;
    }
    assert all[..|all|] == all;
    return true;
  }

  lemma CutOne(before: string, all: string, k: nat, size: nat)
    requires k < |all| && |before| + k <= size
    ensures before + all[..k] + [all[k]] == before + all[..k + 1]
    ensures |before| + k == size ==> Cut(before + all[..k] + [all[k]], size) == Cut(before + all, size)
  {
    if |before| + k == size {
      assert (before + all[..k] + [all[k]])[..size] == before + all[..k];
      assert (before + all)[..size] == before + all[..k];
    }
  }

  // ---- Conversions

  /** Prefix, zeros and digits of a number. */
  method PutNumber(sink: Sink, prefix: string, from: nat, to: nat, digits: string) returns (ok: bool)
    requires sink.Valid()
    modifies sink, sink.str
    ensures var text := prefix + (Zeros(Gap(from, to)) + digits);
            && sink.Valid() && sink.Text() == Cut(old(sink.Text()) + text, sink.size)
            && (ok <==> |old(sink.Text()) + text| <= sink.size)
    ensures sink.str[sink.size..] == old(sink.str[sink.size..])
  {
    ghost var x := sink.Text();
    ghost var zeros := Zeros(Gap(from, to));
    CutTwice(x, prefix, zeros + digits, sink.size);
    CutTwice(x + prefix, zeros, digits, sink.size);
    if prefix != "" {
      ok := Put(sink, prefix);
      if !ok {
        return;
      }
    }
    assert sink.Text() == x + prefix;
    ok := Fill(sink, '0', from, to);
    if !ok {
      return;
    }
    if digits != "" {
      ok := Put(sink, digits);
    }
  }

  function FieldText(left: bool, right: bool, full: nat, width: nat, prefix: string, from: nat, to: nat, digits: string): string {
    Spaces(if left then Gap(full, width) else 0)
    + ((prefix + (Zeros(Gap(from, to)) + digits)) + Spaces(if right then Gap(full, width) else 0))
  }

  /** A number in its field: spaces on one side or the other. */
  method PutField(sink: Sink, left: bool, right: bool, full: nat, width: nat,
                  prefix: string, from: nat, to: nat, digits: string) returns (ok: bool)
    requires sink.Valid()
    modifies sink, sink.str
    ensures var text := FieldText(left, right, full, width, prefix, from, to, digits);
            && sink.Valid() && sink.Text() == Cut(old(sink.Text()) + text, sink.size)
            && (ok <==> |old(sink.Text()) + text| <= sink.size)
    ensures sink.str[sink.size..] == old(sink.str[sink.size..])
  {
    ghost var x := sink.Text();
    ghost var a := Spaces(if left then Gap(full, width) else 0);
    ghost var b := prefix + (Zeros(Gap(from, to)) + digits);
    ghost var c := Spaces(if right then Gap(full, width) else 0);
    CutTwice(x, a, b + c, sink.size);
    CutTwice(x + a, b, c, sink.size);
    if left {
      ok := Fill(sink, ' ', full, width);
      if !ok {
        return;
      }
    }
    assert sink.Text() == x + a;
    ok := PutNumber(sink, prefix, from, to, digits);
    if !ok {
      return;
    }
    if right {
      ok := Fill(sink, ' ', full, width);
    }
  }

  /** The digits of a value, none for zero with precision zero. */
  method DigitsOf(s: Spec, conv: char, v: nat) returns (digits: string)
    requires v < TWO64
    ensures digits == if Blank(s, v) then "" else Digits(v, Base(conv), conv == 'X')
  {
    var output := new char[28];
    DigitsFit(v, Base(conv), conv == 'X');
    var length := ConvertInteger(output, v, Base(conv), conv == 'X');
    ZeroAlone(v, Base(conv), conv == 'X');
    if s.precision == Some(0) && length == 1 && output[0] == '0' {
      assert output[..length] == "0";
      length := 0;
    }
    digits := output[..length];
  }

  lemma PartsText(p: Parts)
    ensures Text(p) == Spaces(p.left) + ((p.prefix + (Zeros(p.zeros) + p.digits)) + Spaces(p.right))
  {
  }

  /** The counts the loops of `vcbprintf` run over give the layout of the number. */
  lemma {:induction false} LayoutIs(s: Spec, conv: char, negative: bool, v: nat, prefix: string, digits: string, full: nat, zeroPad: bool, to: nat)
    requires prefix == Sign(s.flags, conv, negative) + Radix(s.flags, conv, v)
    requires digits == if Blank(s, v) then "" else Digits(v, Base(conv), conv == 'X')
    requires full == |prefix| + (if s.precision.Some? && |digits| < s.precision.value then s.precision.value else |digits|)
    requires zeroPad == (s.flags.zeroPad && s.width >= 0 && s.precision.None?)
    requires to == if zeroPad then Abs(s.width) else if s.precision.Some? then s.precision.value else 0
    ensures FieldText(!zeroPad && s.width >= 0, !zeroPad && s.width < 0, full, Abs(s.width), prefix, |prefix| + |digits|, to, digits)
            == Text(IntParts(s, conv, negative, v))
  {
    var p := IntParts(s, conv, negative, v);
    PartsText(p);
    assert p.prefix == prefix && p.digits == digits;
    assert p.zeros == Gap(|prefix| + |digits|, to);
  }

  /** The arguments for `PutField`, with the conditions and counts of the source. */
  method Layout(s: Spec, conv: char, negative: bool, v: nat)
    returns (left: bool, right: bool, full: nat, prefix: string, to: nat, digits: string)
    requires v < TWO64
    ensures FieldText(left, right, full, Abs(s.width), prefix, |prefix| + |digits|, to, digits)
            == Text(IntParts(s, conv, negative, v))
  {
    prefix := Sign(s.flags, conv, negative) + Radix(s.flags, conv, v);
    digits := DigitsOf(s, conv, v);
    full := |prefix| + (if s.precision.Some? && |digits| < s.precision.value then s.precision.value else |digits|);
    var zeroPad := s.flags.zeroPad && s.width >= 0 && s.precision.None?;
    to := if zeroPad then Abs(s.width) else if s.precision.Some? then s.precision.value else 0;
    left, right := !zeroPad && s.width >= 0, !zeroPad && s.width < 0;
    LayoutIs(s, conv, negative, v, prefix, digits, full, zeroPad, to);
  }

  /** The integer part of `vcbprintf`. */
  method PutInteger(sink: Sink, s: Spec, conv: char, negative: bool, v: nat) returns (ok: bool)
    requires sink.Valid() && v < TWO64
    modifies sink, sink.str
    ensures var text := Text(IntParts(s, conv, negative, v));
            && sink.Valid() && sink.Text() == Cut(old(sink.Text()) + text, sink.size)
            && (ok <==> |old(sink.Text()) + text| <= sink.size)
    ensures sink.str[sink.size..] == old(sink.str[sink.size..])
  {
    var left, right, full: nat, prefix, to: nat, digits := Layout(s, conv, negative, v);
    ok := PutField(sink, left, right, full, Abs(s.width), prefix, |prefix| + |digits|, to, digits);
  }

  /** A character or a string in its field. */
  method PutPadded(sink: Sink, s: Spec, body: string) returns (ok: bool)
    requires sink.Valid()
    modifies sink, sink.str
    ensures sink.Valid() && sink.Text() == Cut(old(sink.Text()) + Padded(s, body), sink.size)
    ensures ok <==> |old(sink.Text()) + Padded(s, body)| <= sink.size
    ensures sink.str[sink.size..] == old(sink.str[sink.size..])
  {
    ghost var x := sink.Text();
    ghost var pad := Spaces(Gap(|body|, Abs(s.width)));
    CutTwice(x, pad, body, sink.size);
    CutTwice(x, body, pad, sink.size);
    ok := true;
    if !s.flags.minus && |body| < Abs(s.width) {
      ok := Fill(sink, ' ', |body|, Abs(s.width));
      if !ok {
        return;
      }
    }
    ok := Put(sink, body);
    if !ok {
      return;
    }
    if s.flags.minus && |body| < Abs(s.width) {
      ok := Fill(sink, ' ', |body|, Abs(s.width));
    }
  }

  method PutInt(sink: Sink, s: Spec, length: Length, conv: char, a: Arg) returns (ok: bool)
    requires sink.Valid() && IsIntConv(conv)
    modifies sink, sink.str
    ensures sink.Valid() && sink.Text() == Cut(old(sink.Text()) + IntText(s, length, conv, a), sink.size)
    ensures ok <==> |old(sink.Text()) + IntText(s, length, conv, a)| <= sink.size
    ensures sink.str[sink.size..] == old(sink.str[sink.size..])
  {
    if conv == 'p' {
      var s' := s.(flags := s.flags.(alternate := !s.flags.alternate));
      ok := PutInteger(sink, s', 'x', false, Word(a));
    } else if conv == 'd' || conv == 'i' {
      var v := SignedArg(a, length);
      ok := PutInteger(sink, s, 'd', v < 0, Abs(v));
    } else {
      ok := PutInteger(sink, s, conv, false, UnsignedArg(a, length));
    }
  }

  // ---- Parsing

  method TakeFlags(f: string) returns (flags: Flags, rest: string)
    ensures (flags, rest) == ParseFlags(f, NO_FLAGS)
  {
    flags, rest := NO_FLAGS, f;
    while rest != [] && IsFlag(rest[0])
      invariant ParseFlags(rest, flags) == ParseFlags(f, NO_FLAGS)
      decreases |rest|
    {
      flags, rest := AddFlag(flags, rest[0]), rest[1..];
    }
  }

  method TakeWidth(f: string, args: nat -> Arg, k: nat) returns (r: Number)
    ensures r == ParseWidth(f, args, k)
  {
    if Peek(f) == '*' {
      return Number(AsSigned(Word(args(k)), TWO32), f[1..], k + 1);
    }
    var value, n := Accumulate(f);
    if n >= MAX_FORMAT_SCAN {
      return Refused;
    }
    return Number(value, f[n..], k);
  }

  method SkipDigits(f: string) returns (rest: string)
    ensures rest == f[Run(f, 10)..]
  {
    rest := f;
    ghost var n: nat := 0;
    while rest != [] && IsDigit(rest[0])
      invariant n <= |f| && rest == f[n..] && n + Run(rest, 10) == Run(f, 10)
      decreases |rest|
    {
      rest := rest[1..];
      n := n + 1;
    }
  }

  method TakePrecision(f: string, args: nat -> Arg, k: nat) returns (r: Number)
    ensures r == ParsePrecision(f, args, k)
  {
    if Peek(f) != '.' {
      return Number(SIZE_MAX, f, k);
    }
    var g := f[1..];
    if Peek(g) == '*' {
      var p := AsSigned(Word(args(k)), TWO32);
      return Number(if p >= 0 then p else 0, g[1..], k + 1);
    }
    if Peek(g) == '-' {
      var rest := SkipDigits(g[1..]);
      return Number(0, rest, k);
    }
    var value, n := AccumulateWrapped(g, 10);
    if n >= MAX_FORMAT_SCAN {
      return Refused;
    }
    return Number(value, g[n..], k);
  }

  method TakeSpec(f: string, args: nat -> Arg, k: nat) returns (r: Parsed)
    ensures r == ParseSpec(f, args, k)
  {
    var flags, g := TakeFlags(f);
    var width := TakeWidth(g, args, k);
    if width.Refused? {
      return TooLong;
    }
    var precision := TakePrecision(width.rest, args, width.next);
    if precision.Refused? {
      return TooLong;
    }
    var (length, n) := ParseLength(precision.rest);
    var spec := Spec(flags, if flags.minus then -width.value else width.value,
                     if precision.value == SIZE_MAX then None else Some(precision.value));
    return Parsed(spec, length, precision.rest[n..], precision.next);
  }

  /** The scan for a run of literal characters, bounded as in `vcbprintf`. */
  method TakeLiteral(f: string) returns (amount: nat)
    ensures amount == if Literal(f) < MAX_FORMAT_SCAN then Literal(f) else MAX_FORMAT_SCAN
  {
    amount := 0;
    while amount < MAX_FORMAT_SCAN && amount < |f| && f[amount] != '%'
      invariant amount <= MAX_FORMAT_SCAN && amount <= |f| && amount + Literal(f[amount..]) == Literal(f)
    {
      assert f[amount..][1..] == f[amount + 1..];
      amount := amount + 1;
    }
  }

  method TakeString(s: Spec, a: Arg) returns (body: string)
    ensures body == StringBody(s, a)
  {
    var text := match a.text case None => "(null)" case Some(t) => t;
    var max := if s.precision.Some? && s.precision.value < MAX_STRING_SCAN then s.precision.value else MAX_STRING_SCAN;
    var i := 0;
    while i < max && i < |text|
      invariant 0 <= i <= max && i <= |text|
    {
      i := i + 1;
    }
    body := text[..i];
  }

  // ---- The loop of `vcbprintf`

  /** Print one conversion, or report it as unknown. */
  method PutConversion(sink: Sink, s: Spec, length: Length, conv: char, args: nat -> Arg, k: nat) returns (ok: bool, known: bool)
    requires sink.Valid() && !Convert(s, length, conv, args, k).NotModelled?
    modifies sink, sink.str
    ensures sink.Valid() && known == Convert(s, length, conv, args, k).Printed?
    ensures known ==> var text := Convert(s, length, conv, args, k).text;
                      && sink.Text() == Cut(old(sink.Text()) + text, sink.size)
                      && (ok <==> |old(sink.Text()) + text| <= sink.size)
    ensures !known ==> sink.Text() == old(sink.Text())
    ensures sink.str[sink.size..] == old(sink.str[sink.size..])
  {
    ok, known := true, true;
    if IsIntConv(conv) && (length != LongDouble || conv == 'p') {
      ok := PutInt(sink, s, length, conv, args(k));
    } else if conv == 'c' && length == Default {
      ok := PutPadded(sink, s, [(Word(args(k)) % 256) as char]);
    } else if conv == 's' && length == Default {
      var body := TakeString(s, args(k));
      ok := PutPadded(sink, s, body);
    } else {
      known := false;
    }
  }

  /** Where the loop stands: what is left of the format, the next argument, whether a conversion
      was rejected. */
  datatype At = At(f: string, k: nat, rejected: bool)

  function Left(at: At, args: nat -> Arg): Output { Emit(at.f, args, at.k, at.rejected) }

  /** What one turn of the loop does to a buffer that holds `x`: it printed `t` and goes on at
      `next`, or it stopped with all there is room for. */
  ghost predicate Turned(x: string, o: Output, size: nat, now: string, go: bool, t: string, rest: Output) {
    if go then now == x + t && o == Then(t, rest)
    else now == Cut(x + o.text, size) && (o.status == Failed || |x + o.text| > size)
  }

  /** Text put in front of what the rest of the format prints. */
  method PutThen(sink: Sink, t: string, ghost o: Output, ghost rest: Output) returns (go: bool)
    requires sink.Valid() && o == Then(t, rest)
    modifies sink, sink.str
    ensures sink.Valid() && Turned(old(sink.Text()), o, sink.size, sink.Text(), go, t, rest)
    ensures sink.str[sink.size..] == old(sink.str[sink.size..])
  {
    CutTwice(sink.Text(), t, rest.text, sink.size);
    go := Put(sink, t);
  }

  /** What is left at a specification, as a function of what was parsed there. */
  function AfterSpec(at: At, args: nat -> Arg, parsed: Parsed): Output
    requires at.f != []
  {
    match parsed
    case TooLong => Output("", Failed)
    case Parsed(spec, length, rest, k) =>
      if rest == [] then Then("%", Left(At(at.f[1..], k, false), args))
      else AfterConversion(at, args, parsed)
  }

  function AfterConversion(at: At, args: nat -> Arg, parsed: Parsed): Output
    requires at.f != [] && parsed.Parsed? && parsed.rest != []
  {
    match Convert(parsed.spec, parsed.length, parsed.rest[0], args, parsed.next)
    case Printed(text, k) => Then(text, Left(At(parsed.rest[1..], k, false), args))
    case Unknown => Then("%", Left(At(at.f[1..], parsed.next, true), args))
    case NotModelled => Output("", Outside)
  }

  lemma LeftAtSpec(at: At, args: nat -> Arg)
    requires at.f != [] && at.f[0] == '%' && Peek(at.f[1..]) != '%' && !at.rejected
    ensures Left(at, args) == AfterSpec(at, args, ParseSpec(at.f[1..], args, at.k))
  {
  }

  /** A turn at a conversion character. */
  method TurnConversion(sink: Sink, args: nat -> Arg, at: At, parsed: Parsed) returns (go: bool, next: At, ghost t: string)
    requires sink.Valid() && at.f != [] && parsed.Parsed? && 0 < |parsed.rest| <= |at.f|
    requires AfterConversion(at, args, parsed).status != Outside
    modifies sink, sink.str
    ensures sink.Valid()
    ensures Turned(old(sink.Text()), AfterConversion(at, args, parsed), sink.size, sink.Text(), go, t, Left(next, args))
    ensures go ==> |next.f| < |at.f|
    ensures sink.str[sink.size..] == old(sink.str[sink.size..])
  {
    ghost var c := Convert(parsed.spec, parsed.length, parsed.rest[0], args, parsed.next);
    ghost var x := sink.Text();
    var known;
    go, known := PutConversion(sink, parsed.spec, parsed.length, parsed.rest[0], args, parsed.next);
    if known {
      next, t := At(parsed.rest[1..], parsed.next + 1, false), c.text;
      CutTwice(x, c.text, Left(next, args).text, sink.size);
    } else {
      next, t := At(at.f[1..], parsed.next, true), "%";
      go := PutThen(sink, "%", AfterConversion(at, args, parsed), Left(next, args));
    }
  }

  /** A turn at the start of a specification. */
  method TurnSpec(sink: Sink, args: nat -> Arg, at: At) returns (go: bool, next: At, ghost t: string)
    requires sink.Valid() && at.f != [] && at.f[0] == '%' && Peek(at.f[1..]) != '%' && !at.rejected
    requires Left(at, args).status != Outside
    modifies sink, sink.str
    ensures sink.Valid() && Turned(old(sink.Text()), Left(at, args), sink.size, sink.Text(), go, t, Left(next, args))
    ensures go ==> |next.f| < |at.f|
    ensures sink.str[sink.size..] == old(sink.str[sink.size..])
  {
    LeftAtSpec(at, args);
    var parsed := TakeSpec(at.f[1..], args, at.k);
    if parsed.TooLong? {
      assert sink.Text() + "" == sink.Text();
      return false, at, "";
    }
    if parsed.rest == [] {
      next, t := At(at.f[1..], parsed.next, false), "%";
      go := PutThen(sink, "%", Left(at, args), Left(next, args));
      return;
    }
    go, next, t := TurnConversion(sink, args, at, parsed);
  }

  /** One turn of the loop. */
  method Turn(sink: Sink, args: nat -> Arg, at: At) returns (go: bool, next: At, ghost t: string)
    requires sink.Valid() && at.f != [] && Left(at, args).status != Outside
    modifies sink, sink.str
    ensures sink.Valid() && Turned(old(sink.Text()), Left(at, args), sink.size, sink.Text(), go, t, Left(next, args))
    ensures go ==> |next.f| < |at.f|
    ensures sink.str[sink.size..] == old(sink.str[sink.size..])
  {
    ghost var o := Left(at, args);
    if at.f[0] != '%' {
      var amount := TakeLiteral(at.f);
      if amount >= MAX_FORMAT_SCAN {
        assert sink.Text() + o.text == sink.Text();
        return false, at, "";
      }
      next, t := At(at.f[amount..], at.k, at.rejected), at.f[..amount];
      go := PutThen(sink, at.f[..amount], o, Left(next, args));
    } else if Peek(at.f[1..]) == '%' {
      next, t := At(at.f[2..], at.k, at.rejected), "%";
      go := PutThen(sink, "%", o, Left(next, args));
    } else if at.rejected {
      next, t := At(at.f[1..], at.k, true), "%";
      go := PutThen(sink, "%", o, Left(next, args));
    } else {
      go, next, t := TurnSpec(sink, args, at);
    }
  }

  /** `vcbprintf` into the bounded buffer: the text, or as much of it as fits; the exact length when
      all of it was printed, -1 otherwise. */
  method Vcbprintf(sink: Sink, format: string, args: nat -> Arg) returns (r: int)
    requires sink.Valid() && sink.Text() == "" && Emit(format, args, 0, false).status != Outside
    modifies sink, sink.str
    ensures var o := Emit(format, args, 0, false);
            && sink.Valid() && sink.Text() == Cut(o.text, sink.size)
            && r == if o.status == Done && |o.text| <= sink.size && |o.text| <= INT32_MAX then |o.text| else -1
    ensures sink.str[sink.size..] == old(sink.str[sink.size..])
  {
    ghost var o := Emit(format, args, 0, false);
    ghost var done := "";
    var at := At(format, 0, false);
    var written: nat := 0;
    while at.f != []
      invariant sink.Valid() && sink.Text() == done && |done| == written
      invariant o == Then(done, Left(at, args))
      invariant sink.str[sink.size..] == old(sink.str[sink.size..])
      decreases |at.f|
    {
      var before := sink.written;
      var go, next, t := Turn(sink, args, at);
      if !go {
        return -1;
      }
      ThenThen(done, t, Left(next, args));
      done := done + t;
      written := written + (sink.written - before);
      at := next;
    }
    assert done + "" == done;
    if written > INT32_MAX {
      return -1;
    }
    return written;
  }

  lemma ThenThen(a: string, b: string, o: Output)
    ensures Then(a, Then(b, o)) == Then(a + b, o)
  {
    assert a + (b + o.text) == a + b + o.text;
  }

  /** `vsnprintf`: a zero-terminated prefix of the whole text, and its length if it all fitted; with "%s"
      and room for the string, the string. */
  method Vsnprintf(str: array<char>, size: nat, format: string, args: nat -> Arg) returns (r: int)
    requires size <= str.Length && Emit(format, args, 0, false).status != Outside
    modifies str
    ensures var o := Emit(format, args, 0, false);
            && (size >= 1 ==>
                  var n := |Cut(o.text, size - 1)|;
                  n < size && str[..n] == Cut(o.text, size - 1) && str[n] == '\0')
            && r == if o.status == Done && |o.text| <= (if size == 0 then 0 else size - 1) && |o.text| <= INT32_MAX
                    then |o.text| else -1
    ensures str[size..] == old(str[size..])
    ensures format == "%s" && args(0).text.Some? && |args(0).text.value| <= 8192 && |args(0).text.value| < size ==>
              var t := args(0).text.value; r == |t| && str[..|t|] == t && str[|t|] == '\0'
  {
    r := PrintBounded(str, size, format, args);
    if format == "%s" && args(0).text.Some? && |args(0).text.value| <= 8192 && |args(0).text.value| < size {
      OnlyString(args(0).text.value, args);
    }
  }

  /** `vcbprintf` into the buffer, and the terminator. */
  method PrintBounded(str: array<char>, size: nat, format: string, args: nat -> Arg) returns (r: int)
    requires size <= str.Length && Emit(format, args, 0, false).status != Outside
    modifies str
    ensures var o := Emit(format, args, 0, false);
            && (size >= 1 ==>
                  var n := |Cut(o.text, size - 1)|;
                  n < size && str[..n] == Cut(o.text, size - 1) && str[n] == '\0')
            && r == if o.status == Done && |o.text| <= (if size == 0 then 0 else size - 1) && |o.text| <= INT32_MAX
                    then |o.text| else -1
    ensures str[size..] == old(str[size..])
  {
    var state := new Sink(str, if size > 0 then size - 1 else 0);
    ghost var tail := str[state.size..];
    r := Vcbprintf(state, format, args);
    assert str[state.size..] == tail;
    if 1 <= size {
      ghost var text := state.Text();
      str[state.written] := '\0';
      assert str[..state.written] == text;
      assert str[size..] == tail[1..];
    }
  }
}
