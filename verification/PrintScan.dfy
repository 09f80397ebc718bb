/** One format string for both directions: `vsscanf` reads back what `vcbprintf` printed. */
module PrintScan {
  import opened Wrappers
  import opened PrintSpec
  import opened PrintFormat
  import opened PrintMeaning
  import opened Scan
  import opened ScanFormat

  const PLAIN := Spec(NO_FLAGS, 0, Option.None)

  predicate IsPlain(e: Item) { e.spec == PLAIN && Readable(e) }

  /** A conversion character on its own is a specification without anything. */
  lemma ParsePlain(c: char, rest: string, args: nat -> Arg, k: nat)
    requires c == 'd' || c == 'u' || c == 'x' || c == 'X'
    ensures ParseSpec([c] + rest, args, k) == Parsed(PLAIN, Default, [c] + rest, k)
  {
    var f := [c] + rest;
    assert ParseFlags(f, NO_FLAGS) == (NO_FLAGS, f);
    assert Run(f, 10) == 0 && f[..0] == "" && f[0..] == f;
    assert ParseWidth(f, args, k) == Number(0, f, k);
    assert ParsePrecision(f, args, k) == Number(SIZE_MAX, f, k);
    assert ParseLength(f) == (Default, 0);
  }

  lemma ConvertItem(e: Item, args: nat -> Arg, k: nat)
    requires IsPlain(e) && Word(args(k)) == e.word
    ensures Convert(PLAIN, Default, e.conv, args, k) == Conversion.Printed(PrintSpec.Text(ItemParts(e)), k + 1)
  {
  }

  /** A bare conversion in front of a format. */
  lemma {:induction false} EmitBare(f: string, c: char, rest: string, args: nat -> Arg, k: nat, text: string)
    requires f != [] && f[0] == '%' && f[1..] == [c] + rest
    requires c == 'd' || c == 'u' || c == 'x' || c == 'X'
    requires Convert(PLAIN, Default, c, args, k) == Conversion.Printed(text, k + 1)
    ensures Emit(f, args, k, false) == Then(text, Emit(rest, args, k + 1, false))
  {
    var g := f[1..];
    assert g[1..] == rest;
    ParsePlain(c, rest, args, k);
    EmitConversion(f, args, k, PLAIN, Default, g, k);
  }

  lemma {:induction false} EmitItem(e: Item, f: string, rest: string, args: nat -> Arg, k: nat)
    requires IsPlain(e) && Word(args(k)) == e.word && f == ['%', e.conv] + rest
    ensures Emit(f, args, k, false) == Then(PrintSpec.Text(ItemParts(e)), Emit(rest, args, k + 1, false))
  {
    ConvertItem(e, args, k);
    EmitBare(f, e.conv, rest, args, k, PrintSpec.Text(ItemParts(e)));
  }

  lemma {:induction false} EmitSpace(rest: string, args: nat -> Arg, k: nat)
    requires rest != [] && rest[0] == '%'
    ensures Emit(" " + rest, args, k, false) == Then(" ", Emit(rest, args, k, false))
  {
    var f := " " + rest;
    assert f[1..] == rest;
    assert Literal(f) == 1 && f[..1] == " ";
  }

  /** The arguments from number `k` on hold the items, which are printed without flags, width and
      precision. */
  predicate Hold(args: nat -> Arg, k: nat, es: seq<Item>)
    decreases |es|
  {
    es == [] || (IsPlain(es[0]) && Word(args(k)) == es[0].word && Hold(args, k + 1, es[1..]))
  }

  lemma {:induction false} HeldAreReadable(args: nat -> Arg, k: nat, es: seq<Item>)
    requires Hold(args, k, es)
    ensures forall i :: 0 <= i < |es| ==> Readable(es[i])
    decreases |es|
  {
    if es != [] {
      HeldAreReadable(args, k + 1, es[1..]);
      assert forall i :: 1 <= i < |es| ==> es[i] == es[1..][i - 1];
    }
  }

  /** Printing with a list of conversions prints the items with spaces between them. */
  lemma {:induction false} EmitList(es: seq<Item>, args: nat -> Arg, k: nat)
    requires Hold(args, k, es)
    ensures Emit(Format(es), args, k, false) == Output(ScanFormat.Printed(es), Done)
  {
    if es != [] {
      var rest := es[1..];
      EmitItem(es[0], Format(es), FormatRest(rest), args, k);
      EmitList(rest, args, k + 1);
      EmitRest(rest, args, k + 1);
    }
  }

  lemma {:induction false} EmitRest(es: seq<Item>, args: nat -> Arg, k: nat)
    requires Emit(Format(es), args, k, false) == Output(ScanFormat.Printed(es), Done)
    ensures Emit(FormatRest(es), args, k, false) == Output(Rest(es), Done)
  {
    if es != [] {
      EmitSpace(Format(es), args, k);
    }
  }

  /** Printing any integers with any list of d, u, x and X conversions and scanning the text with
      the very same format string gives all of them back. */
  lemma {:induction false} SameFormatBothWays(es: seq<Item>, args: nat -> Arg)
    requires Hold(args, 0, es)
    ensures Emit(Format(es), args, 0, false).status == Done
    ensures Values(Emit(Format(es), args, 0, false).text, Format(es)) == ItemValues(es)
  {
    EmitList(es, args, 0);
    HeldAreReadable(args, 0, es);
    ListReadsBack(es);
  }

  // ---- Strings and characters

  /** A word: not empty, no white space, short enough to be printed whole. */
  predicate IsWord(t: string) {
    0 < |t| <= 8192 && forall i :: 0 <= i < |t| ==> !IsSpace(t[i])
  }

  lemma {:induction false} WordEnds(t: string, rest: string)
    requires (forall i :: 0 <= i < |t| ==> !IsSpace(t[i])) && (rest != [] ==> IsSpace(rest[0]))
    ensures WordLength(t + rest) == |t|
  {
    if t == [] {
      assert t + rest == rest;
    } else {
      assert (t + rest)[1..] == t[1..] + rest;
      WordEnds(t[1..], rest);
    }
  }

  lemma {:induction false} SkipBlank(a: string, s: string)
    requires (forall i :: 0 <= i < |a| ==> IsSpace(a[i])) && (s != [] ==> !IsSpace(s[0]))
    ensures SkipSpaces(a + s) == s
  {
    if a == [] {
      assert a + s == s;
    } else {
      assert (a + s)[1..] == a[1..] + s;
      SkipBlank(a[1..], s);
    }
  }

  /** White space, as section 7.4.1.10 of C11 lists it. */
  lemma SpaceIs(c: char)
    ensures IsSpace(c) <==> c as int == 32 || 9 <= c as int <= 13
  {
  }

  /** `%s` reads the next word behind any white space, up to white space or the end of the input. */
  lemma {:induction false} WordRead(a: string, t: string, rest: string)
    requires (forall i :: 0 <= i < |a| ==> IsSpace(a[i])) && IsWord(t) && (rest != [] ==> IsSpace(rest[0]))
    ensures ReadOne('s', a + (t + rest)) == Some((Value.Text(t), rest))
  {
    SkipBlank(a, t + rest);
    WordEnds(t, rest);
    assert (t + rest)[..|t|] == t && (t + rest)[|t|..] == rest;
  }

  /** `%c` reads the next character, white space or not. */
  lemma CharRead(c: char, rest: string)
    ensures ReadOne('c', [c] + rest) == Some((Char(c), rest))
  {
  }

  /** A word printed with "%s" is read back by "%s", and a character by "%c". */
  lemma {:induction false} WordBothWays(t: string, args: nat -> Arg)
    requires IsWord(t) && args(0).text == Some(t)
    ensures Values(Emit("%s", args, 0, false).text, "%s") == [Value.Text(t)]
  {
    OnlyString(t, args);
    WordRead("", t, "");
    assert "" + (t + "") == t;
    ValuesOne('s', "", t, Value.Text(t), "");
    assert ['%', 's'] + "" == "%s";
  }

  lemma {:induction false} CharBothWays(args: nat -> Arg)
    ensures Values(Emit("%c", args, 0, false).text, "%c") == [Char((args(0).word % 256) as char)]
  {
    var c := (args(0).word % 256) as char;
    OnlyChar(args);
    CharRead(c, "");
    assert [c] + "" == [c];
    ValuesOne('c', "", [c], Char(c), "");
    assert ['%', 'c'] + "" == "%c";
  }
}
