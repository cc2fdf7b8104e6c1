/**
 * What the characters of a JSON string stand for, letter by letter (RFC 8259 section 7). The
 * scanner and the grammar share one decoder; here it is compared with the alphabets themselves,
 * so that two keys count as equal exactly when they denote one string.
 */
module Spelling {
  import opened Text
  import opened JsonText
  import opened DuplicateKeys
  import opened DuplicateKeysCorrect
  import opened LooseScan

  const LOWER_DIGITS: Str := Ascii("0123456789abcdef")
  const UPPER_DIGITS: Str := Ascii("0123456789ABCDEF")

  /** The letters of the short escapes: quote, backslash, slash, b, f, n, r, t. */
  const SHORT_LETTERS: Str := Ascii("\"\\/bfnrt")

  /** What they stand for: themselves, backspace, form feed, line feed, carriage return and tab. */
  const SHORT_UNITS: Str := [0x22, 0x5C, 0x2F, 8, 12, 10, 13, 9]

  predicate IsDigitFor(letter: CodeUnit, n: nat)
    requires n < 16
  {
    letter == LOWER_DIGITS[n] || letter == UPPER_DIGITS[n]
  }

  /** The spelling stands for the unit; a hexadecimal escape may mix both alphabets. */
  predicate Denotes(p: Piece, u: CodeUnit) {
    match p
    case Raw(x) => x == u && x != 0x22 && x != 0x5C
    case Short(letter) => exists k | 0 <= k < 8 :: SHORT_LETTERS[k] == letter && SHORT_UNITS[k] == u
    case Hex(a, b, c, d) =>
      IsDigitFor(a, u / 4096) && IsDigitFor(b, u / 256 % 16) && IsDigitFor(c, u / 16 % 16) && IsDigitFor(d, u % 16)
  }

  predicate DenoteAll(ps: seq<Piece>, s: Str) { |ps| == |s| && forall i | 0 <= i < |s| :: Denotes(ps[i], s[i]) }

  const PUNCTUATION: Str := Ascii("\"\\:,{}[]u")
  const BLANKS: Str := Ascii(" \t\n\r")

  /** Punctuation and white space are the characters they are written as. */
  lemma Characters(u: CodeUnit)
    ensures [QUOTE, BACKSLASH, COLON, COMMA, LBRACE, RBRACE, LBRACKET, RBRACKET, LOWER_U] == PUNCTUATION
    ensures IsWs(u) <==> u in BLANKS
  {
    assert BLANKS == [0x20, 0x09, 0x0A, 0x0D];
  }

  lemma HexLetters(n: nat)
    requires n < 16
    ensures IsDigitFor(if n < 10 then 0x30 + n else 0x61 + n - 10, n) && IsDigitFor(if n < 10 then 0x30 + n else 0x41 + n - 10, n)
    ensures forall u: CodeUnit :: IsDigitFor(u, n) ==> u == (if n < 10 then 0x30 + n else 0x61 + n - 10) || u == (if n < 10 then 0x30 + n else 0x41 + n - 10)
  {
    assert LOWER_DIGITS == [0x30, 0x31, 0x32, 0x33, 0x34, 0x35, 0x36, 0x37, 0x38, 0x39, 0x61, 0x62, 0x63, 0x64, 0x65, 0x66];
    assert UPPER_DIGITS == [0x30, 0x31, 0x32, 0x33, 0x34, 0x35, 0x36, 0x37, 0x38, 0x39, 0x41, 0x42, 0x43, 0x44, 0x45, 0x46];
  }

  lemma HexDigitExactly(letter: CodeUnit, n: nat)
    requires n < 16
    ensures IsDigitFor(letter, n) <==> IsHexDigit(letter) && HexDigit(letter) == n
  {
    hide IsDigitFor;
    HexLetters(n);
  }

  lemma HexExactly(a: CodeUnit, b: CodeUnit, c: CodeUnit, d: CodeUnit, u: CodeUnit)
    ensures Denotes(Hex(a, b, c, d), u) <==> Spelled(Hex(a, b, c, d)) && DecodePiece(Hex(a, b, c, d)) == u
  {
    hide IsDigitFor, IsHexDigit, HexDigit;
    HexDigitExactly(a, u / 4096);
    HexDigitExactly(b, u / 256 % 16);
    HexDigitExactly(c, u / 16 % 16);
    HexDigitExactly(d, u % 16);
    if Spelled(Hex(a, b, c, d)) {
      FourDigits(HexDigit(a), HexDigit(b), HexDigit(c), HexDigit(d), u);
    }
  }

  lemma FourDigits(a: int, b: int, c: int, d: int, u: int)
    requires 0 <= a < 16 && 0 <= b < 16 && 0 <= c < 16 && 0 <= d < 16 && 0 <= u < 0x10000
    ensures ((a * 16 + b) * 16 + c) * 16 + d == u <==> a == u / 4096 && b == u / 256 % 16 && c == u / 16 % 16 && d == u % 16
  {
    var q := u / 16;
    var r := q / 16;
    assert u / 256 == r && u / 4096 == r / 16;
  }

  lemma ShortExactly(letter: CodeUnit, u: CodeUnit)
    ensures Denotes(Short(letter), u) <==> ShortEscape(letter) == Some(u)
  {
    assert SHORT_LETTERS == [0x22, 0x5C, 0x2F, 0x62, 0x66, 0x6E, 0x72, 0x74];
    assert SHORT_UNITS[0] == 0x22;
    forall k | 0 <= k < 8 ensures ShortEscape(SHORT_LETTERS[k]) == Some(SHORT_UNITS[k]) {
    }
    if ShortEscape(letter) == Some(u) {
      var k := if letter == 0x22 then 0 else if letter == 0x5C then 1 else if letter == 0x2F then 2 else if letter == 0x62 then 3
               else if letter == 0x66 then 4 else if letter == 0x6E then 5 else if letter == 0x72 then 6 else 7;
      assert SHORT_LETTERS[k] == letter && SHORT_UNITS[k] == u;
    }
  }

  /** The decoder accepts exactly the spellings that denote something, and gives what they denote. */
  lemma DecodePieceExactly(p: Piece, u: CodeUnit)
    ensures Denotes(p, u) <==> Spelled(p) && DecodePiece(p) == u
  {
    match p
    case Raw(x) =>
    case Short(letter) => ShortExactly(letter, u);
    case Hex(a, b, c, d) => HexExactly(a, b, c, d, u);
  }

  lemma {:induction false} DecodeExactly(ps: seq<Piece>, s: Str)
    ensures DenoteAll(ps, s) <==> AllSpelled(ps) && Decode(ps) == s
    decreases |ps|
  {
    hide Denotes, Spelled, DecodePiece;
    if ps == [] {
    } else if s == [] {
    } else {
      DecodePieceExactly(ps[0], s[0]);
      DecodeExactly(ps[1..], s[1..]);
      assert ps == [ps[0]] + ps[1..] && s == [s[0]] + s[1..];
      assert DenoteAll(ps, s) <==> Denotes(ps[0], s[0]) && DenoteAll(ps[1..], s[1..]);
      assert AllSpelled(ps) <==> Spelled(ps[0]) && AllSpelled(ps[1..]);
    }
  }

  /** Reading gives a string exactly when a spelling of it and the closing quote stand there. */
  lemma ReadCharsExactly(t: Str, s: Str, rest: Str)
    ensures ReadChars(t) == Some((s, rest)) <==>
              exists ps: seq<Piece> :: DenoteAll(ps, s) && t == PrintPieces(ps, [QUOTE] + rest)
  {
    hide Decode, DenoteAll, ReadChars, AllSpelled;
    if ReadChars(t) == Some((s, rest)) {
      var ps := ReadCharsSplits(t);
      ReadCharsDecodes(ps, rest);
      DecodeExactly(ps, s);
    }
    forall ps: seq<Piece> | DenoteAll(ps, s) && t == PrintPieces(ps, [QUOTE] + rest) ensures ReadChars(t) == Some((s, rest)) {
      DecodeExactly(ps, s);
      ReadCharsDecodes(ps, rest);
    }
  }

  // ---- keys as they are spelled ----

  function KeySpellings(ms: Members): seq<seq<Piece>> {
    match ms case NoMembers => [] case Member(_, key, _, _, _, _, tail) => [key] + KeySpellings(tail)
  }

  lemma {:induction false} KeysDecoded(ms: Members)
    requires WfMembers(ms)
    ensures |Keys(ms)| == |KeySpellings(ms)|
    ensures forall i | 0 <= i < |Keys(ms)| :: DenoteAll(KeySpellings(ms)[i], Keys(ms)[i])
    decreases ms
  {
    hide Decode, DenoteAll, Wf;
    match ms
    case NoMembers =>
    case Member(_, key, _, _, _, _, tail) =>
      DecodeExactly(key, Decode(key));
      KeysDecoded(tail);
  }

  /**
   * The scanner against the letters of the text: it reports a JSON text exactly when this is an
   * object two of whose top-level keys denote the same string, however each of them is spelled.
   */
  lemma ReportsEqualMeanings(d: Document)
    requires WfDocument(d)
    ensures HasDuplicateTopLevelKeys(PrintDocument(d)) <==>
              d.value.Obj?
              && var keys := KeySpellings(d.value.members);
                 exists i, j, s: Str :: 0 <= i < j < |keys| && DenoteAll(keys[i], s) && DenoteAll(keys[j], s)
  {
    hide HasDuplicateTopLevelKeys, DenoteAll, Decode, WfMembers, PrintDocument, KeySpellings, Keys;
    ScannerAgreesWithTree(d);
    if d.value.Obj? {
      assert WfMembers(d.value.members) by { WfObject(d.value); }
      var keys, spelled := Keys(d.value.members), KeySpellings(d.value.members);
      KeysDecoded(d.value.members);
      if HasEqualKeys(keys) {
        var i, j :| 0 <= i < j < |keys| && keys[i] == keys[j];
        assert DenoteAll(spelled[i], keys[i]) && DenoteAll(spelled[j], keys[i]);
      }
      forall i, j, s: Str | 0 <= i < j < |spelled| && DenoteAll(spelled[i], s) && DenoteAll(spelled[j], s) ensures HasEqualKeys(keys) {
        DecodeExactly(spelled[i], s);
        DecodeExactly(spelled[i], keys[i]);
        DecodeExactly(spelled[j], s);
        DecodeExactly(spelled[j], keys[j]);
      }
    }
  }
}
