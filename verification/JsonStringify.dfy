/** JSON.stringify for flat records of strings and integers, with the fixed key order of the caller. */
module JsonStringify {
  import opened Text
  import opened JsonText
  import opened DuplicateKeys
  import opened DuplicateKeysCorrect

  // ---- strings ----

  function LowerHex(d: int): (u: CodeUnit)
    requires 0 <= d < 16
    ensures IsHexDigit(u) && HexDigit(u) == d
  {
    if d < 10 then 0x30 + d else 0x61 + d - 10
  }

  function HexOf(u: CodeUnit): (p: Piece)
    ensures WfPiece(p) && DecodePiece(p) == u
  {
    var q1 := u / 16;
    var q2 := q1 / 16;
    var q3 := q2 / 16;
    Hex(LowerHex(q3), LowerHex(q2 % 16), LowerHex(q1 % 16), LowerHex(u % 16))
  }

  function Spell(u: CodeUnit): (p: Piece)
    ensures WfPiece(p) && DecodePiece(p) == u
  {
    if u == QUOTE || u == BACKSLASH then Short(u)
    else if u == 0x08 then Short(0x62)
    else if u == 0x09 then Short(0x74)
    else if u == 0x0A then Short(0x6E)
    else if u == 0x0C then Short(0x66)
    else if u == 0x0D then Short(0x72)
    else if u < 0x20 || 0xD800 <= u < 0xE000 then HexOf(u)
    else Raw(u)
  }

  /** Surrogate pairs are written as they are, lone surrogates as escapes. */
  function Quote(s: Str): (ps: seq<Piece>)
    ensures WfPieces(ps) && Decode(ps) == s
  {
    if s == [] then []
    else if |s| >= 2 && IsHighSurrogate(s[0]) && IsLowSurrogate(s[1]) then
      assert Decode([Raw(s[0]), Raw(s[1])] + Quote(s[2..])) == s by { DecodeTwo(Raw(s[0]), Raw(s[1]), Quote(s[2..])); }
      [Raw(s[0]), Raw(s[1])] + Quote(s[2..])
    else
      assert ([Spell(s[0])] + Quote(s[1..]))[1..] == Quote(s[1..]);
      [Spell(s[0])] + Quote(s[1..])
  }

  lemma DecodeTwo(p: Piece, q: Piece, ps: seq<Piece>)
    requires WfPiece(p) && WfPiece(q) && WfPieces(ps)
    ensures Decode([p, q] + ps) == [DecodePiece(p), DecodePiece(q)] + Decode(ps)
  {
    assert ([p, q] + ps)[1..] == [q] + ps && ([q] + ps)[1..] == ps;
  }

  // ---- integers ----

  function Digits(n: nat): (s: Str)
    ensures s != [] && AllDigits(s)
    ensures s[0] == 0x30 ==> n == 0
    ensures n < 10 ==> s == [0x30 + n]
  {
    if n < 10 then [0x30 + n] else Digits(n / 10) + [0x30 + n % 10]
  }

  lemma {:induction false} DigitsInjective(m: nat, n: nat)
    requires Digits(m) == Digits(n)
    ensures m == n
  {
    if m >= 10 && n >= 10 {
      var a, b := Digits(m / 10), Digits(n / 10);
      assert a == Digits(m)[..|Digits(m)| - 1] && b == Digits(n)[..|Digits(n)| - 1];
      assert Digits(m)[|a|] == 0x30 + m % 10 && Digits(n)[|b|] == 0x30 + n % 10;
      DigitsInjective(m / 10, n / 10);
    } else {
      assert |Digits(m)| == 1 <==> m < 10;
      assert |Digits(n)| == 1 <==> n < 10;
    }
  }

  /** The first character that is no digit ends the number. */
  lemma DigitsEnd(m: nat, r: Str, n: nat, s: Str)
    requires r != [] && s != [] && !IsDigit(r[0]) && !IsDigit(s[0])
    requires Digits(m) + r == Digits(n) + s
    ensures m == n && r == s
  {
    var a, b := Digits(m), Digits(n);
    var t := a + r;
    assert t[|a|] == r[0] && t[|b|] == s[0];
    assert forall i | 0 <= i < |a| :: t[i] == a[i];
    assert forall i | 0 <= i < |b| :: t[i] == b[i];
    assert |a| == |b|;
    assert a == t[..|a|] == b;
    assert r == t[|a|..] == s;
    DigitsInjective(m, n);
  }

  /** Number(part) for decimal digits. */
  function DecimalValue(part: Str): nat
    requires AllDigits(part)
  {
    if part == [] then 0 else 10 * DecimalValue(part[..|part| - 1]) + (part[|part| - 1] - 0x30)
  }

  lemma {:induction false} DigitsValue(n: nat)
    ensures DecimalValue(Digits(n)) == n
  {
    if n >= 10 {
      DigitsValue(n / 10);
      assert Digits(n)[..|Digits(n)| - 1] == Digits(n / 10);
    } else {
      assert Digits(n)[..0] == [];
    }
  }

  // ---- records ----

  datatype FieldValue = IntField(number: nat) | StrField(text: Str)
  datatype Field = Field(name: Str, value: FieldValue)

  function ToValue(v: FieldValue): (r: Value)
    ensures Wf(r) && !r.Word?
  {
    match v
    case IntField(n) =>
      assert Digits(n)[0] == 0x30 ==> |Digits(n)| == 1;
      Num(Number(false, Digits(n), [], NoExponent))
    case StrField(s) => Text(Quote(s))
  }

  function ToMembers(fs: seq<Field>): (ms: Members)
    ensures WfMembers(ms)
    ensures ms.Member? <==> fs != []
  {
    if fs == [] then NoMembers
    else Member([], Quote(fs[0].name), [], [], ToValue(fs[0].value), [], ToMembers(fs[1..]))
  }

  function ToObject(fs: seq<Field>): (v: Value)
    ensures Wf(v) && v.Obj?
  {
    Obj([], ToMembers(fs))
  }

  function Stringify(fs: seq<Field>): Str { Print(ToObject(fs), []) }

  // ---- what can be read back ----

  lemma QuotedStringReadsBack(s: Str, rest: Str)
    ensures var t := PrintString(Quote(s), rest);
            t != [] && t[0] == QUOTE && ReadChars(t[1..]) == Some((s, rest))
  {
    var t := PrintString(Quote(s), rest);
    assert t[1..] == PrintPieces(Quote(s), [QUOTE] + rest);
    ReadCharsDecodes(Quote(s), rest);
  }

  lemma PrintedNumber(n: nat, rest: Str)
    ensures var t := Print(ToValue(IntField(n)), rest);
            t == Digits(n) + rest && t[0] != QUOTE
  {
    hide Quote;
    assert PrintNumber(Number(false, Digits(n), [], NoExponent)) == Digits(n);
  }

  lemma PrintedString(s: Str, rest: Str)
    ensures var t := Print(ToValue(StrField(s)), rest);
            t != [] && t[0] == QUOTE && ReadChars(t[1..]) == Some((s, rest))
  {
    hide Quote, ReadChars, Digits;
    QuotedStringReadsBack(s, rest);
  }

  lemma ValueReadsBack(v: FieldValue, r: Str, w: FieldValue, s: Str)
    requires r != [] && s != [] && !IsDigit(r[0]) && !IsDigit(s[0])
    requires Print(ToValue(v), r) == Print(ToValue(w), s)
    ensures v == w && r == s
  {
    hide Print, ToValue, ReadChars;
    match v {
      case IntField(m) => PrintedNumber(m, r);
      case StrField(a) => PrintedString(a, r);
    }
    match w {
      case IntField(n) => PrintedNumber(n, s);
      case StrField(b) => PrintedString(b, s);
    }
    if v.IntField? && w.IntField? {
      DigitsEnd(v.number, r, w.number, s);
    }
  }

  /** The printed record determines the names, the values and where the record ends. */
  lemma {:induction false} MembersReadBack(fs: seq<Field>, r: Str, gs: seq<Field>, s: Str)
    requires fs != [] && gs != []
    requires PrintMembers(ToMembers(fs), [RBRACE] + r) == PrintMembers(ToMembers(gs), [RBRACE] + s)
    ensures fs == gs && r == s
  {
    var closeR, closeS := [RBRACE] + r, [RBRACE] + s;
    var nextR := if fs[1..] == [] then closeR else [COMMA] + PrintMembers(ToMembers(fs[1..]), closeR);
    var nextS := if gs[1..] == [] then closeS else [COMMA] + PrintMembers(ToMembers(gs[1..]), closeS);
    var vr, vs := Print(ToValue(fs[0].value), nextR), Print(ToValue(gs[0].value), nextS);
    PrintFirst(fs, closeR);
    PrintFirst(gs, closeS);
    QuotedStringReadsBack(fs[0].name, [COLON] + vr);
    QuotedStringReadsBack(gs[0].name, [COLON] + vs);
    assert vr == ([COLON] + vr)[1..] == ([COLON] + vs)[1..] == vs;
    ValueReadsBack(fs[0].value, nextR, gs[0].value, nextS);
    assert nextR[1..] == nextS[1..];
    if fs[1..] == [] {
      assert nextR[0] == RBRACE;
      assert r == nextR[1..] == nextS[1..] == s;
    } else {
      assert nextR[0] == COMMA;
      MembersReadBack(fs[1..], r, gs[1..], s);
    }
    assert fs == [fs[0]] + fs[1..] && gs == [gs[0]] + gs[1..];
  }

  lemma PrintFirst(fs: seq<Field>, rest: Str)
    requires fs != []
    ensures var next := if fs[1..] == [] then rest else [COMMA] + PrintMembers(ToMembers(fs[1..]), rest);
            PrintMembers(ToMembers(fs), rest) ==
              PrintString(Quote(fs[0].name), [COLON] + Print(ToValue(fs[0].value), next))
  {
    var next := if fs[1..] == [] then rest else [COMMA] + PrintMembers(ToMembers(fs[1..]), rest);
    assert [] + next == next;
    var v := Print(ToValue(fs[0].value), next);
    assert [] + v == v;
    assert [] + ([COLON] + v) == [COLON] + v;
    var t := PrintString(Quote(fs[0].name), [COLON] + v);
    assert [] + t == t;
  }

  /** JSON.stringify is injective on records with at least one field. */
  lemma StringifyInjective(fs: seq<Field>, gs: seq<Field>)
    requires fs != [] && gs != []
    requires Stringify(fs) == Stringify(gs)
    ensures fs == gs
  {
    assert Stringify(fs)[1..] == PrintMembers(ToMembers(fs), [RBRACE] + []);
    assert Stringify(gs)[1..] == PrintMembers(ToMembers(gs), [RBRACE] + []);
    MembersReadBack(fs, [], gs, []);
  }

  // ---- a stringified record fits on a line ----

  predicate OneLine(s: Str) { NEWLINE !in s }

  lemma {:induction false} PiecesOneLine(ps: seq<Piece>, rest: Str)
    requires WfPieces(ps) && OneLine(rest)
    ensures OneLine(PrintPieces(ps, rest))
  {
    if ps == [] {
    } else {
      PiecesOneLine(ps[1..], rest);
      assert OneLine(PrintPiece(ps[0]));
    }
  }

  lemma StringOneLine(s: Str, rest: Str)
    requires OneLine(rest)
    ensures OneLine(PrintString(Quote(s), rest))
  {
    PiecesOneLine(Quote(s), [QUOTE] + rest);
  }

  lemma {:induction false} MembersOneLine(fs: seq<Field>, rest: Str)
    requires OneLine(rest)
    ensures OneLine(PrintMembers(ToMembers(fs), rest))
  {
    if fs == [] {
    } else {
      MembersOneLine(fs[1..], rest);
      PrintFirst(fs, rest);
      var next := if fs[1..] == [] then rest else [COMMA] + PrintMembers(ToMembers(fs[1..]), rest);
      match fs[0].value
      case IntField(n) =>
        assert PrintNumber(Number(false, Digits(n), [], NoExponent)) == Digits(n);
        StringOneLine(fs[0].name, [COLON] + Print(ToValue(fs[0].value), next));
      case StrField(s) =>
        StringOneLine(s, next);
        StringOneLine(fs[0].name, [COLON] + Print(ToValue(fs[0].value), next));
    }
  }

  lemma StringifyOneLine(fs: seq<Field>)
    ensures OneLine(Stringify(fs))
  {
    MembersOneLine(fs, [RBRACE]);
    assert [RBRACE] + [] == [RBRACE];
    assert [] + [RBRACE] == [RBRACE];
  }
}
