/** Text as the program sees it: sequences of UTF-16 code units. */
module Text {
  type CodeUnit = u: int | 0 <= u < 0x10000
  type Str = seq<CodeUnit>

  datatype Option<+T> = None | Some(value: T)

  /** An ASCII literal as code units. */
  function Ascii(s: string): (t: Str)
    requires forall i | 0 <= i < |s| :: s[i] < 128 as char
    ensures |t| == |s|
    ensures forall i | 0 <= i < |s| :: t[i] == s[i] as int
  {
    seq(|s|, i requires 0 <= i < |s| => s[i] as int)
  }

  /** The text reads like this literal. */
  predicate Is(s: Str, name: string) { |s| == |name| && forall i | 0 <= i < |s| :: s[i] == name[i] as int }

  const QUOTE: CodeUnit := 0x22
  const COMMA: CodeUnit := 0x2C
  const DOT: CodeUnit := 0x2E
  const SLASH: CodeUnit := 0x2F
  const COLON: CodeUnit := 0x3A
  const BACKSLASH: CodeUnit := 0x5C
  const LBRACKET: CodeUnit := 0x5B
  const RBRACKET: CodeUnit := 0x5D
  const LBRACE: CodeUnit := 0x7B
  const RBRACE: CodeUnit := 0x7D
  const NEWLINE: CodeUnit := 0x0A
  const LOWER_U: CodeUnit := 0x75
  const REPLACEMENT: CodeUnit := 0xFFFD

  predicate IsDigit(u: CodeUnit) { 0x30 <= u <= 0x39 }

  predicate IsHighSurrogate(u: CodeUnit) { 0xD800 <= u < 0xDC00 }

  predicate IsLowSurrogate(u: CodeUnit) { 0xDC00 <= u < 0xE000 }

  // ---- the letters and digits of ASCII ----

  const LOWER_CASE: Str := Ascii("abcdefghijklmnopqrstuvwxyz")
  const UPPER_CASE: Str := Ascii("ABCDEFGHIJKLMNOPQRSTUVWXYZ")
  const DIGITS: Str := Ascii("0123456789")

  lemma LowerLetters(u: CodeUnit)
    ensures u in LOWER_CASE <==> 0x61 <= u <= 0x7A
  {
    assert forall i | 0 <= i < 26 :: LOWER_CASE[i] == 0x61 + i;
    assert 0x61 <= u <= 0x7A ==> LOWER_CASE[u - 0x61] == u;
  }

  lemma UpperLetters(u: CodeUnit)
    ensures u in UPPER_CASE <==> 0x41 <= u <= 0x5A
  {
    assert forall i | 0 <= i < 26 :: UPPER_CASE[i] == 0x41 + i;
    assert 0x41 <= u <= 0x5A ==> UPPER_CASE[u - 0x41] == u;
  }

  lemma DigitLetters(u: CodeUnit)
    ensures u in DIGITS <==> IsDigit(u)
  {
    assert forall i | 0 <= i < 10 :: DIGITS[i] == 0x30 + i;
    assert IsDigit(u) ==> DIGITS[u - 0x30] == u;
  }

  // ---- split and join ----

  /** s.split(sep) for a separator of one unit. */
  function Split(s: Str, sep: CodeUnit): (parts: seq<Str>)
    ensures parts != []
  {
    if s == [] then [[]]
    else
      var parts := Split(s[1..], sep);
      if s[0] == sep then [[]] + parts else [[s[0]] + parts[0]] + parts[1..]
  }

  /** parts.join(sep) */
  function Join(parts: seq<Str>, sep: CodeUnit): Str {
    if parts == [] then []
    else if |parts| == 1 then parts[0]
    else parts[0] + [sep] + Join(parts[1..], sep)
  }

  lemma {:induction false} SplitNone(s: Str, sep: CodeUnit)
    requires sep !in s
    ensures Split(s, sep) == [s]
  {
    if s == [] {
    } else {
      SplitNone(s[1..], sep);
      assert s[0] in s && [s[0]] + s[1..] == s;
    }
  }

  lemma {:induction false} SplitConcat(a: Str, sep: CodeUnit, b: Str)
    ensures Split(a + [sep] + b, sep) == Split(a, sep) + Split(b, sep)
  {
    var s := a + [sep] + b;
    if a == [] {
      assert s[1..] == b;
    } else {
      assert s[1..] == a[1..] + [sep] + b;
      SplitConcat(a[1..], sep, b);
    }
  }

  lemma {:induction false} SplitParts(s: Str, sep: CodeUnit)
    ensures forall i | 0 <= i < |Split(s, sep)| :: sep !in Split(s, sep)[i]
  {
    if s == [] {
    } else {
      SplitParts(s[1..], sep);
    }
  }

  lemma {:induction false} JoinSplit(s: Str, sep: CodeUnit)
    ensures Join(Split(s, sep), sep) == s
  {
    if s == [] {
    } else {
      var parts := Split(s[1..], sep);
      JoinSplit(s[1..], sep);
      if s[0] == sep {
        assert ([[]] + parts)[1..] == parts;
        assert [] + [sep] + s[1..] == s;
      } else {
        assert ([[s[0]] + parts[0]] + parts[1..])[1..] == parts[1..];
        assert [s[0]] + s[1..] == s;
        if |parts| > 1 {
          assert [s[0]] + parts[0] + [sep] + Join(parts[1..], sep) == [s[0]] + (parts[0] + [sep] + Join(parts[1..], sep));
        }
      }
    }
  }

  lemma {:induction false} SplitJoin(parts: seq<Str>, sep: CodeUnit)
    requires parts != [] && forall i | 0 <= i < |parts| :: sep !in parts[i]
    ensures Split(Join(parts, sep), sep) == parts
  {
    SplitNone(parts[0], sep);
    if |parts| > 1 {
      SplitConcat(parts[0], sep, Join(parts[1..], sep));
      SplitJoin(parts[1..], sep);
    }
  }

  lemma {:induction false} JoinConcat(a: seq<Str>, b: seq<Str>, sep: CodeUnit)
    requires a != [] && b != []
    ensures Join(a + b, sep) == Join(a, sep) + [sep] + Join(b, sep)
  {
    if |a| == 1 {
      assert (a + b)[1..] == b;
    } else {
      assert (a + b)[1..] == a[1..] + b;
      JoinConcat(a[1..], b, sep);
      var x, y, z := a[0] + [sep], Join(a[1..], sep), [sep] + Join(b, sep);
      Assoc(x, y, z);
      assert y + z == Join(a[1..], sep) + [sep] + Join(b, sep);
      assert Join(a, sep) + [sep] + Join(b, sep) == (x + y) + z;
    }
  }

  /** Bytes of a text in UTF-8. A lone surrogate is written as U+FFFD, three bytes. */
  function Utf8Length(s: Str): nat {
    if s == [] then 0
    else if s[0] < 0x80 then 1 + Utf8Length(s[1..])
    else if s[0] < 0x800 then 2 + Utf8Length(s[1..])
    else if |s| >= 2 && IsHighSurrogate(s[0]) && IsLowSurrogate(s[1]) then 4 + Utf8Length(s[2..])
    else 3 + Utf8Length(s[1..])
  }

  lemma Assoc(a: Str, b: Str, c: Str)
    ensures a + (b + c) == (a + b) + c
  {
  }

  /** Sizes add up when the cut does not fall inside a surrogate pair. */
  lemma {:induction false} Utf8LengthConcat(a: Str, b: Str)
    requires a == [] || b == [] || !IsHighSurrogate(a[|a| - 1]) || !IsLowSurrogate(b[0])
    ensures Utf8Length(a + b) == Utf8Length(a) + Utf8Length(b)
    decreases |a|
  {
    if a == [] {
      assert a + b == b;
    } else {
      var k := if |a| >= 2 && a[0] >= 0x800 && IsHighSurrogate(a[0]) && IsLowSurrogate(a[1]) then 2 else 1;
      assert (a + b)[k..] == a[k..] + b;
      Utf8LengthConcat(a[k..], b);
    }
  }

  /** Array.from(value).length: a surrogate pair is one code point. */
  function CodePoints(s: Str): nat {
    if s == [] then 0
    else if |s| >= 2 && IsHighSurrogate(s[0]) && IsLowSurrogate(s[1]) then 1 + CodePoints(s[2..])
    else 1 + CodePoints(s[1..])
  }
}
