/** Bytes, and little-endian integers made of them. */
module Bytes {
  import opened Arithmetic

  type byte = b: int | 0 <= b < 256

  function U32(v: nat): (s: seq<byte>)
    requires v < TWO32
    ensures |s| == 4
  {
    [v % 256, v / 256 % 256, v / 65536 % 256, v / 16777216]
  }

  function U32At(s: seq<byte>, i: nat): (v: nat)
    requires i + 4 <= |s|
    ensures v < TWO32
  {
    var b0: int, b1: int, b2: int, b3: int := s[i], s[i + 1], s[i + 2], s[i + 3];
    b0 + 256 * b1 + 65536 * b2 + 16777216 * b3
  }

  lemma U32RoundTrip(v: nat)
    requires v < TWO32
    ensures U32At(U32(v), 0) == v
  {
    var a, b, c := v / 256, v / 65536, v / 16777216;
    assert v == 256 * a + v % 256;
    assert b == a / 256 && a == 256 * b + a % 256;
    assert c == b / 256 && b == 256 * c + b % 256;
  }

  /** The byte at the lowest offset counts ones, the next one 256s, and so on. */
  lemma LittleEndian(a: byte, b: byte, c: byte, d: byte)
    ensures U32At([a, b, c, d], 0) == a + 256 * b + 65536 * c + 16777216 * d
    ensures U32(a + 256 * b + 65536 * c + 16777216 * d) == [a, b, c, d]
  {
    var v: nat := a + 256 * b + 65536 * c + 16777216 * d;
    Peel(a, b + 256 * c + 65536 * d, 256);
    Peel(a + 256 * b, c + 256 * d, 65536);
    Peel(a + 256 * b + 65536 * c, d, 16777216);
    Peel(b, c + 256 * d, 256);
    Peel(c, d, 256);
  }

  /** The low part of a number and the rest. */
  lemma Peel(low: nat, rest: nat, base: nat)
    requires low < base
    ensures (low + base * rest) % base == low && (low + base * rest) / base == rest
  {
    var d := (low + base * rest) / base - rest;
    assert d * base == low - (low + base * rest) % base;
    MulBounds(d, base);
  }

  /** Reading four bytes as a number and writing it gives them back. */
  lemma U32Back(s: seq<byte>, i: nat)
    requires i + 4 <= |s|
    ensures U32(U32At(s, i)) == s[i..i + 4]
  {
    LittleEndian(s[i], s[i + 1], s[i + 2], s[i + 3]);
  }

  function U16At(s: seq<byte>, i: nat): (v: nat)
    requires i + 2 <= |s|
    ensures v < 65536
  {
    var b0: int, b1: int := s[i], s[i + 1];
    b0 + 256 * b1
  }

  // ---- What the numbers are

  /** The number that bytes stand for, the lowest first. */
  function Number(s: seq<byte>): nat {
    if s == [] then 0
    else
      var b0: int := s[0];
      b0 + 256 * Number(s[1..])
  }

  lemma {:induction false} NumberCons(b: byte, s: seq<byte>)
    ensures Number([b] + s) == (b as int) + 256 * Number(s)
  {
    assert ([b] + s)[1..] == s;
  }

  lemma {:induction false} U16AtIs(s: seq<byte>, i: nat)
    requires i + 2 <= |s|
    ensures U16At(s, i) == Number(s[i..i + 2])
  {
    assert s[i..i + 2] == [s[i]] + ([s[i + 1]] + []);
    NumberCons(s[i], [s[i + 1]] + []);
    NumberCons(s[i + 1], []);
  }

  lemma {:induction false} U32AtIs(s: seq<byte>, i: nat)
    requires i + 4 <= |s|
    ensures U32At(s, i) == Number(s[i..i + 4])
  {
    U16AtIs(s, i + 2);
    assert s[i..i + 4] == [s[i]] + ([s[i + 1]] + s[i + 2..i + 4]);
    NumberCons(s[i], [s[i + 1]] + s[i + 2..i + 4]);
    NumberCons(s[i + 1], s[i + 2..i + 4]);
  }

  /** Writing a number gives bytes that stand for it. */
  lemma {:induction false} U32Is(v: nat)
    requires v < TWO32
    ensures Number(U32(v)) == v
  {
    U32RoundTrip(v);
    U32AtIs(U32(v), 0);
    assert U32(v)[0..4] == U32(v);
  }
}
