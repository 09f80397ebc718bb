/** `vsscanf`: a format and an input give a list of values; printed lists are read back. */
module ScanFormat {
  import opened Arithmetic
  import opened Wrappers
  import opened PrintSpec
  import opened PrintFormat
  import opened Scan

  datatype Value = Int(v: int) | Uint(n: nat) | Text(s: string) | Char(c: char)

  /** The number of characters before the next white space. */
  function WordLength(s: string): (n: nat)
    ensures n <= |s|
  {
    if s != [] && !IsSpace(s[0]) then 1 + WordLength(s[1..]) else 0
  }

  /** One conversion: the value and the unread input. */
  function ReadOne(conv: char, input: string): Option<(Value, string)> {
    if conv == 'd' then
      match ReadInt(input) case None => None case Some((v, rest)) => Some((Int(v), rest))
    else if conv == 'u' then
      match ReadUint(input) case None => None case Some((n, rest)) => Some((Uint(n), rest))
    else if conv == 'x' || conv == 'X' then
      match ReadHex(input) case None => None case Some((n, rest)) => Some((Uint(n), rest))
    else if conv == 's' then
      var t := SkipSpaces(input);
      if t == [] then None else Some((Text(t[..WordLength(t)]), t[WordLength(t)..]))
    else if conv == 'c' then
      if input == [] then None else Some((Char(input[0]), input[1..]))
    else None
  }

  /** The values assigned, in order; their number is what `vsscanf` returns. */
  function Values(input: string, f: string): seq<Value>
    decreases |f|
  {
    if f == [] then []
    else if IsSpace(f[0]) then SkipShortens(f); Values(SkipSpaces(input), SkipSpaces(f))
    else if f[0] != '%' then
      if Peek(input) != f[0] || input == [] then [] else Values(input[1..], f[1..])
    else if |f| == 1 then []
    else if f[1] == '%' then
      if Peek(input) != '%' then [] else Values(input[1..], f[2..])
    else
      match ReadOne(f[1], input)
      case None => []
      case Some((v, rest)) => [v] + Values(rest, f[2..])
  }

  lemma {:induction false} SkipShortens(f: string)
    ensures |SkipSpaces(f)| <= |f|
    ensures f != [] && IsSpace(f[0]) ==> |SkipSpaces(f)| < |f|
    ensures SkipSpaces(f) != [] ==> !IsSpace(SkipSpaces(f)[0])
  {
    if f != [] && IsSpace(f[0]) {
      SkipShortens(f[1..]);
    }
  }

  /** The loop of `vsscanf`. */
  method Vsscanf(str: string, format: string) returns (values: seq<Value>)
    ensures values == Values(str, format)
  {
    var input, f := str, format;
    values := [];
    while f != []
      invariant Values(str, format) == values + Values(input, f)
      decreases |f|
    {
      if IsSpace(f[0]) {
        SkipShortens(f);
        var i := SkipFrom(input, 0);
        var j := SkipFrom(f, 0);
        assert input[0..] == input && f[0..] == f;
        input, f := input[i..], f[j..];
      } else if f[0] != '%' {
        if Peek(input) != f[0] || input == [] {
          break;
        }
        input, f := input[1..], f[1..];
      } else if |f| == 1 {
        break;
      } else if f[1] == '%' {
        if Peek(input) != '%' {
          break;
        }
        input, f := input[1..], f[2..];
      } else {
        var r := ScanOne(f[1], input);
        if r.None? {
          break;
        }
        values := values + [r.value.0];
        input, f := r.value.1, f[2..];
      }
    }
  }

  /** One case of the switch in `vsscanf`. */
  method ScanOne(conv: char, input: string) returns (r: Option<(Value, string)>)
    ensures r == ReadOne(conv, input)
  {
    assert input[0..] == input;
    if conv == 'd' {
      var n := ScanInt(input, 0);
      r := if n.None? then None else Some((Int(n.value.0), input[n.value.1..]));
    } else if conv == 'u' {
      var n := ScanUint(input, 0);
      r := if n.None? then None else Some((Uint(n.value.0), input[n.value.1..]));
    } else if conv == 'x' || conv == 'X' {
      var n := ScanHex(input, 0);
      r := if n.None? then None else Some((Uint(n.value.0), input[n.value.1..]));
    } else if conv == 's' {
      r := ScanString(input);
    } else if conv == 'c' && input != [] {
      r := Some((Char(input[0]), input[1..]));
    } else {
      r := None;
    }
  }

  /** `scan_string`. */
  method ScanString(input: string) returns (r: Option<(Value, string)>)
    ensures r == ReadOne('s', input)
  {
    var i := SkipFrom(input, 0);
    assert input[0..] == input;
    var t := input[i..];
    if t == [] {
      return None;
    }
    var out, n := "", 0;
    while n < |t| && !IsSpace(t[n])
      invariant 0 <= n <= |t| && out == t[..n] && n + WordLength(t[n..]) == WordLength(t)
    {
      assert t[n..][1..] == t[n + 1..];
      out := out + [t[n]];
      n := n + 1;
    }
    return Some((Text(out), t[n..]));
  }

  // ---- A list of printed integers

  /** An integer to print: how, with which conversion, and the word it is held in. */
  datatype Item = Item(spec: Spec, conv: char, word: nat)

  /** Items that can be read back: not zero with precision zero, and not the least int. */
  predicate Readable(e: Item) {
    && e.word < TWO32 && !(e.spec.precision == Some(0) && e.word == 0)
    && (e.conv == 'd' || e.conv == 'u' || e.conv == 'x' || e.conv == 'X')
    && (e.conv == 'd' ==> e.word != 0x8000_0000)
  }

  function ItemParts(e: Item): Parts {
    if e.conv == 'd' then
      var v := AsSigned(e.word, TWO32);
      IntParts(e.spec, 'd', v < 0, Abs(v))
    else IntParts(e.spec, e.conv, false, e.word)
  }

  function ItemValue(e: Item): Value {
    if e.conv == 'd' then Int(AsSigned(e.word, TWO32)) else Uint(e.word)
  }

  /** The items printed one after the other with a space between them. */
  function Printed(es: seq<Item>): string
    decreases |es|, 0
  {
    if es == [] then "" else PrintSpec.Text(ItemParts(es[0])) + Rest(es[1..])
  }

  function Rest(es: seq<Item>): string
    decreases |es|, 1
  {
    if es == [] then "" else " " + Printed(es)
  }

  /** The conversions of the items with a space between them. */
  function Format(es: seq<Item>): string
    decreases |es|, 0
  {
    if es == [] then "" else ['%', es[0].conv] + FormatRest(es[1..])
  }

  function FormatRest(es: seq<Item>): string
    decreases |es|, 1
  {
    if es == [] then "" else " " + Format(es)
  }

  function ItemValues(es: seq<Item>): seq<Value> {
    if es == [] then [] else [ItemValue(es[0])] + ItemValues(es[1..])
  }

  lemma ItemReadsBack(e: Item, after: string)
    requires Readable(e) && Ends(after)
    ensures ReadOne(e.conv, PrintSpec.Text(ItemParts(e)) + after) ==
            Some((ItemValue(e), Spaces(ItemParts(e).right) + after))
  {
    if e.conv == 'd' {
      IntReadsBack(e.spec, AsSigned(e.word, TWO32), after);
    } else if e.conv == 'u' {
      UintReadsBack(e.spec, e.word, after);
    } else {
      HexReadsBack(e.spec, e.conv, e.word, after);
    }
  }

  lemma {:induction false} SkipMore(n: nat, s: string)
    ensures SkipSpaces(Spaces(n) + s) == SkipSpaces(s)
  {
    if n == 0 {
      assert Spaces(0) + s == s;
    } else {
      assert (Spaces(n) + s)[1..] == Spaces(n - 1) + s;
      SkipMore(n - 1, s);
    }
  }

  /** White space before a list of items makes no difference. */
  lemma {:induction false} ValuesSkip(es: seq<Item>, input: string)
    requires es != [] && Readable(es[0])
    ensures Values(SkipSpaces(input), Format(es)) == Values(input, Format(es))
  {
    SkipShortens(input);
    assert SkipSpaces(SkipSpaces(input)) == SkipSpaces(input);
    assert ReadOne(es[0].conv, SkipSpaces(input)) == ReadOne(es[0].conv, input);
  }

  lemma {:induction false} ValuesOne(conv: char, f: string, input: string, v: Value, rest: string)
    requires conv != '%' && ReadOne(conv, input) == Some((v, rest))
    ensures Values(input, ['%', conv] + f) == [v] + Values(rest, f)
  {
    assert (['%', conv] + f)[2..] == f;
  }

  /** Any other character of the format has to be the next one of the input. */
  lemma {:induction false} CharacterMatches(c: char, f: string, input: string)
    requires !IsSpace(c) && c != '%'
    ensures Values(input, [c] + f) == if input != [] && input[0] == c then Values(input[1..], f) else []
  {
    assert ([c] + f)[1..] == f;
  }

  /** Two percent signs stand for one. */
  lemma {:induction false} PercentMatches(f: string, input: string)
    requires input != []
    ensures Values(input, "%%" + f) == if input[0] == '%' then Values(input[1..], f) else []
  {
    assert ("%%" + f)[2..] == f;
  }

  /** Nothing more is assigned behind a conversion that finds nothing. */
  lemma {:induction false} NothingStops(conv: char, f: string, input: string)
    requires conv != '%' && ReadOne(conv, input) == None
    ensures Values(input, ['%', conv] + f) == []
  {
  }

  lemma {:induction false} RestEnds(es: seq<Item>)
    ensures Ends(Rest(es))
  {
  }

  /** Reading back what was printed gives every value, in order. */
  lemma {:induction false} ListReadsBack(es: seq<Item>)
    requires forall i :: 0 <= i < |es| ==> Readable(es[i])
    ensures Values(Printed(es), Format(es)) == ItemValues(es)
  {
    if es != [] {
      var e, tail, n := es[0], es[1..], ItemParts(es[0]).right;
      RestEnds(tail);
      ItemReadsBack(e, Rest(tail));
      ValuesOne(e.conv, FormatRest(tail), Printed(es), ItemValue(e), Spaces(n) + Rest(tail));
      ListReadsBack(tail);
      if tail != [] {
        RestReadsBack(tail, n);
      }
    }
  }

  lemma {:induction false} RestReadsBack(es: seq<Item>, n: nat)
    requires es != [] && Readable(es[0])
    ensures Values(Spaces(n) + Rest(es), FormatRest(es)) == Values(Printed(es), Format(es))
  {
    SpacesThen(n, Printed(es), Format(es));
    ValuesSkip(es, Printed(es));
  }

  lemma {:induction false} SpacesThen(n: nat, text: string, f: string)
    requires f != [] && !IsSpace(f[0])
    ensures Values(Spaces(n) + (" " + text), " " + f) == Values(SkipSpaces(text), f)
  {
    SpaceInFormat(f, Spaces(n) + (" " + text));
    assert Spaces(n) + (" " + text) == Spaces(n + 1) + text;
    SkipMore(n + 1, text);
  }

  /** A space in the format skips white space of the input. */
  lemma {:induction false} SpaceInFormat(f: string, input: string)
    requires f != [] && !IsSpace(f[0])
    ensures Values(input, " " + f) == Values(SkipSpaces(input), f)
  {
    var g := " " + f;
    assert g[1..] == f;
    assert SkipSpaces(g) == SkipSpaces(f) == f;
  }
}
