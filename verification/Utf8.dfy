/**
 * UTF-8 itself (RFC 3629 section 3): the sizes that the program's limits are about are the lengths
 * of byte sequences that decode to the code points of the text.
 */
module Utf8 {
  import opened Text

  type Byte = b: int | 0 <= b < 256

  /** A code point that can be encoded. */
  predicate Scalar(c: nat) { c < 0x110000 && !(0xD800 <= c < 0xE000) }

  /** The code points of a text; a lone surrogate counts as U+FFFD. */
  function Points(s: Str): (cs: seq<nat>)
    ensures forall i | 0 <= i < |cs| :: Scalar(cs[i])
    decreases |s|
  {
    if s == [] then []
    else if |s| >= 2 && IsHighSurrogate(s[0]) && IsLowSurrogate(s[1]) then
      [0x10000 + (s[0] as int - 0xD800) * 0x400 + (s[1] as int - 0xDC00)] + Points(s[2..])
    else [if 0xD800 <= s[0] < 0xE000 then 0xFFFD else s[0]] + Points(s[1..])
  }

  function EncodePoint(c: nat): seq<Byte>
    requires Scalar(c)
  {
    if c < 0x80 then [c]
    else if c < 0x800 then [0xC0 + c / 0x40, 0x80 + c % 0x40]
    else if c < 0x10000 then [0xE0 + c / 0x1000, 0x80 + c / 0x40 % 0x40, 0x80 + c % 0x40]
    else [0xF0 + c / 0x40000, 0x80 + c / 0x1000 % 0x40, 0x80 + c / 0x40 % 0x40, 0x80 + c % 0x40]
  }

  function EncodePoints(cs: seq<nat>): seq<Byte>
    requires forall i | 0 <= i < |cs| :: Scalar(cs[i])
  {
    if cs == [] then [] else EncodePoint(cs[0]) + EncodePoints(cs[1..])
  }

  predicate Continues(b: seq<Byte>, i: nat) { i < |b| && 0x80 <= b[i] < 0xC0 }

  /** The code point that a byte sequence starts with and its number of bytes: none for overlong forms, surrogates and broken sequences. */
  function DecodePoint(b: seq<Byte>): (r: Option<(nat, nat)>)
    ensures r.Some? ==> 1 <= r.value.1 <= |b|
  {
    if b == [] then None
    else if b[0] < 0x80 then Some((b[0], 1))
    else if 0xC2 <= b[0] < 0xE0 && Continues(b, 1) then Some(((b[0] as int - 0xC0) * 0x40 + (b[1] as int - 0x80), 2))
    else if 0xE0 <= b[0] < 0xF0 && Continues(b, 1) && Continues(b, 2) then
      var c := ((b[0] as int - 0xE0) * 0x40 + (b[1] as int - 0x80)) * 0x40 + (b[2] as int - 0x80);
      if c >= 0x800 && Scalar(c) then Some((c, 3)) else None
    else if 0xF0 <= b[0] < 0xF5 && Continues(b, 1) && Continues(b, 2) && Continues(b, 3) then
      var c := (((b[0] as int - 0xF0) * 0x40 + (b[1] as int - 0x80)) * 0x40 + (b[2] as int - 0x80)) * 0x40 + (b[3] as int - 0x80);
      if c >= 0x10000 && Scalar(c) then Some((c, 4)) else None
    else None
  }

  function DecodePoints(b: seq<Byte>): Option<seq<nat>>
    decreases |b|
  {
    if b == [] then Some([])
    else match DecodePoint(b)
      case None => None
      case Some((c, n)) => match DecodePoints(b[n..]) case None => None case Some(cs) => Some([c] + cs)
  }

  lemma Sextets(c: nat)
    ensures c / 0x1000 == c / 0x40 / 0x40 && c / 0x40000 == c / 0x40 / 0x40 / 0x40
  {
  }

  lemma PointReadsBack(c: nat, rest: seq<Byte>)
    requires Scalar(c)
    ensures DecodePoint(EncodePoint(c) + rest) == Some((c, |EncodePoint(c)|))
  {
    Sextets(c);
    var q, b := c / 0x40, EncodePoint(c) + rest;
    var r := q / 0x40;
    if c < 0x800 {
    } else if c < 0x10000 {
      assert b[0] - 0xE0 == r && b[1] - 0x80 == q % 0x40 && b[2] - 0x80 == c % 0x40;
    } else {
      assert b[0] - 0xF0 == r / 0x40 && b[1] - 0x80 == r % 0x40 && b[2] - 0x80 == q % 0x40 && b[3] - 0x80 == c % 0x40;
    }
  }

  lemma {:induction false} PointsReadBack(cs: seq<nat>)
    requires forall i | 0 <= i < |cs| :: Scalar(cs[i])
    ensures DecodePoints(EncodePoints(cs)) == Some(cs)
  {
    hide DecodePoint, EncodePoint;
    if cs == [] {
    } else {
      PointReadsBack(cs[0], EncodePoints(cs[1..]));
      PointsReadBack(cs[1..]);
      var b := EncodePoints(cs);
      assert b[|EncodePoint(cs[0])|..] == EncodePoints(cs[1..]);
      assert [cs[0]] + cs[1..] == cs;
    }
  }

  /** The size of a text is the length of its encoding, which decodes to its code points; their number is that of the text. */
  lemma {:induction false} SizesAreReal(s: Str)
    ensures |EncodePoints(Points(s))| == Utf8Length(s) && |Points(s)| == CodePoints(s)
    ensures DecodePoints(EncodePoints(Points(s))) == Some(Points(s))
    decreases |s|
  {
    PointsReadBack(Points(s));
    hide DecodePoints;
    if s == [] {
    } else {
      var k := if |s| >= 2 && IsHighSurrogate(s[0]) && IsLowSurrogate(s[1]) then 2 else 1;
      SizesAreReal(s[k..]);
      var cs := Points(s);
      assert cs[1..] == Points(s[k..]);
    }
  }
}
