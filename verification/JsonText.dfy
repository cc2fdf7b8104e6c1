/**
 * JSON texts as concrete syntax trees (RFC 8259 sections 2, 4, 6 and 7). A tree records every
 * choice a printer has: the white space around each token and the spelling of each character of
 * a string. `Print(v, rest)` is the text of `v` written in front of `rest`.
 */
module JsonText {
  import opened Text

  /** One character of a string as it is spelled. */
  datatype Piece =
    | Raw(unit: CodeUnit)
    | Short(letter: CodeUnit)
    | Hex(h0: CodeUnit, h1: CodeUnit, h2: CodeUnit, h3: CodeUnit)

  datatype Sign = NoSign | Plus | Minus
  datatype Exponent = NoExponent | Exponent(upper: bool, sign: Sign, digits: Str)
  datatype Number = Number(negative: bool, whole: Str, fraction: Str, exponent: Exponent)

  datatype Value =
    | Word(word: Str)
    | Num(number: Number)
    | Text(pieces: seq<Piece>)
    | Arr(inner: Str, items: Items)
    | Obj(inner: Str, members: Members)

  datatype Items =
    | NoItems
    | Item(before: Str, value: Value, after: Str, tail: Items)

  datatype Members =
    | NoMembers
    | Member(lead: Str, key: seq<Piece>, gap: Str, before: Str, value: Value, after: Str, tail: Members)

  /** A whole JSON text: one value between white space. */
  datatype Document = Document(lead: Str, value: Value, trail: Str)

  // ---- well-formedness: exactly the grammar ----

  predicate IsWs(u: CodeUnit) { u == 0x20 || u == 0x09 || u == 0x0A || u == 0x0D }

  predicate AllWs(s: Str) { forall i | 0 <= i < |s| :: IsWs(s[i]) }

  predicate IsHexDigit(u: CodeUnit) { IsDigit(u) || 0x41 <= u <= 0x46 || 0x61 <= u <= 0x66 }

  function HexDigit(u: CodeUnit): (d: int)
    requires IsHexDigit(u)
    ensures 0 <= d < 16
  {
    if IsDigit(u) then u - 0x30 else if u <= 0x46 then u - 0x41 + 10 else u - 0x61 + 10
  }

  /** The unit a two-character escape stands for. */
  function ShortEscape(letter: CodeUnit): Option<CodeUnit> {
    if letter == 0x6E then Some(0x0A)       // \n
    else if letter == 0x74 then Some(0x09)  // \t
    else if letter == 0x72 then Some(0x0D)  // \r
    else if letter == 0x62 then Some(0x08)  // \b
    else if letter == 0x66 then Some(0x0C)  // \f
    else if letter == QUOTE || letter == BACKSLASH || letter == SLASH then Some(letter)
    else None
  }

  /** A spelling that can be decoded. */
  predicate Spelled(p: Piece) {
    match p
    case Raw(u) => u != QUOTE && u != BACKSLASH
    case Short(letter) => ShortEscape(letter).Some?
    case Hex(a, b, c, d) => IsHexDigit(a) && IsHexDigit(b) && IsHexDigit(c) && IsHexDigit(d)
  }

  predicate AllSpelled(ps: seq<Piece>) { forall i | 0 <= i < |ps| :: Spelled(ps[i]) }

  /** The grammar wants control characters escaped. */
  predicate WfPiece(p: Piece) { Spelled(p) && (p.Raw? ==> p.unit >= 0x20) }

  predicate WfPieces(ps: seq<Piece>) { forall i | 0 <= i < |ps| :: WfPiece(ps[i]) }

  predicate AllDigits(s: Str) { forall i | 0 <= i < |s| :: IsDigit(s[i]) }

  predicate WfNumber(n: Number) {
    && n.whole != [] && AllDigits(n.whole) && (n.whole[0] == 0x30 ==> |n.whole| == 1)
    && AllDigits(n.fraction)
    && (n.exponent.Exponent? ==> n.exponent.digits != [] && AllDigits(n.exponent.digits))
  }

  predicate Wf(v: Value) {
    match v
    case Word(w) => w == Ascii("true") || w == Ascii("false") || w == Ascii("null")
    case Num(n) => WfNumber(n)
    case Text(ps) => WfPieces(ps)
    case Arr(inner, items) => AllWs(inner) && WfItems(items)
    case Obj(inner, members) => AllWs(inner) && WfMembers(members)
  }

  predicate WfItems(items: Items) {
    items.Item? ==>
      AllWs(items.before) && Wf(items.value) && AllWs(items.after) && WfItems(items.tail)
  }

  predicate WfMembers(ms: Members) {
    ms.Member? ==>
      && AllWs(ms.lead) && WfPieces(ms.key) && AllWs(ms.gap)
      && AllWs(ms.before) && Wf(ms.value) && AllWs(ms.after) && WfMembers(ms.tail)
  }

  predicate WfDocument(d: Document) { AllWs(d.lead) && Wf(d.value) && AllWs(d.trail) }

  // ---- printing ----

  function PrintPiece(p: Piece): (t: Str)
    ensures t != []
  {
    match p
    case Raw(u) => [u]
    case Short(letter) => [BACKSLASH, letter]
    case Hex(a, b, c, d) => [BACKSLASH, LOWER_U, a, b, c, d]
  }

  function PrintPieces(ps: seq<Piece>, rest: Str): Str {
    if ps == [] then rest else PrintPiece(ps[0]) + PrintPieces(ps[1..], rest)
  }

  function PrintString(ps: seq<Piece>, rest: Str): Str {
    [QUOTE] + PrintPieces(ps, [QUOTE] + rest)
  }

  function PrintNumber(n: Number): Str {
    (if n.negative then [0x2D] else []) + n.whole
    + (if n.fraction == [] then [] else [DOT] + n.fraction)
    + match n.exponent
      case NoExponent => []
      case Exponent(upper, sign, digits) =>
        [if upper then 0x45 else 0x65]
        + (match sign case NoSign => [] case Plus => [0x2B] case Minus => [0x2D])
        + digits
  }

  function Print(v: Value, rest: Str): Str {
    match v
    case Word(w) => w + rest
    case Num(n) => PrintNumber(n) + rest
    case Text(ps) => PrintString(ps, rest)
    case Arr(inner, items) =>
      [LBRACKET] + (if items.NoItems? then inner + ([RBRACKET] + rest)
                    else PrintItems(items, [RBRACKET] + rest))
    case Obj(inner, members) =>
      [LBRACE] + (if members.NoMembers? then inner + ([RBRACE] + rest)
                  else PrintMembers(members, [RBRACE] + rest))
  }

  function PrintItems(items: Items, rest: Str): Str {
    match items
    case NoItems => rest
    case Item(before, value, after, tail) =>
      before + Print(value, after + (if tail.NoItems? then rest else [COMMA] + PrintItems(tail, rest)))
  }

  function PrintMembers(ms: Members, rest: Str): Str {
    match ms
    case NoMembers => rest
    case Member(lead, key, gap, before, value, after, tail) =>
      lead + PrintString(key, gap + ([COLON] + (before + Print(value,
        after + (if tail.NoMembers? then rest else [COMMA] + PrintMembers(tail, rest))))))
  }

  function PrintDocument(d: Document): Str { d.lead + Print(d.value, d.trail) }

  ghost predicate IsDocument(t: Str) {
    exists d: Document :: WfDocument(d) && PrintDocument(d) == t
  }

  /** `Print` only prepends: the text in front of `rest` does not depend on `rest`. */
  lemma {:induction false} PrintPiecesPrepends(ps: seq<Piece>, rest: Str, more: Str)
    ensures PrintPieces(ps, rest + more) == PrintPieces(ps, rest) + more
  {
    if ps == [] {
    } else {
      var head, tail := PrintPiece(ps[0]), PrintPieces(ps[1..], rest);
      PrintPiecesPrepends(ps[1..], rest, more);
      assert head + (tail + more) == (head + tail) + more;
    }
  }

  lemma {:induction false} PrintStringPrepends(ps: seq<Piece>, rest: Str, more: Str)
    ensures PrintString(ps, rest + more) == PrintString(ps, rest) + more
  {
    hide PrintPieces;
    Assoc([QUOTE], rest, more);
    PrintPiecesPrepends(ps, [QUOTE] + rest, more);
    Assoc([QUOTE], PrintPieces(ps, [QUOTE] + rest), more);
  }

  lemma {:induction false} PrintPrepends(v: Value, rest: Str, more: Str)
    ensures Print(v, rest + more) == Print(v, rest) + more
    decreases v
  {
    hide PrintString, PrintNumber;
    match v
    case Word(w) => Assoc(w, rest, more);
    case Num(n) => Assoc(PrintNumber(n), rest, more);
    case Text(ps) => PrintStringPrepends(ps, rest, more);
    case Arr(inner, items) =>
      var close := [RBRACKET] + rest;
      Assoc([RBRACKET], rest, more);
      Assoc(inner, close, more);
      PrintItemsPrepends(items, close, more);
      Assoc([LBRACKET], if items.NoItems? then inner + close else PrintItems(items, close), more);
    case Obj(inner, members) =>
      var close := [RBRACE] + rest;
      Assoc([RBRACE], rest, more);
      Assoc(inner, close, more);
      PrintMembersPrepends(members, close, more);
      Assoc([LBRACE], if members.NoMembers? then inner + close else PrintMembers(members, close), more);
  }

  lemma {:induction false} PrintItemsPrepends(items: Items, rest: Str, more: Str)
    ensures PrintItems(items, rest + more) == PrintItems(items, rest) + more
    decreases items
  {
    hide Print;
    match items
    case NoItems =>
    case Item(before, value, after, tail) =>
      var next := if tail.NoItems? then rest else [COMMA] + PrintItems(tail, rest);
      PrintItemsPrepends(tail, rest, more);
      Assoc([COMMA], PrintItems(tail, rest), more);
      Assoc(after, next, more);
      PrintPrepends(value, after + next, more);
      Assoc(before, Print(value, after + next), more);
  }

  lemma {:induction false} PrintMembersPrepends(ms: Members, rest: Str, more: Str)
    ensures PrintMembers(ms, rest + more) == PrintMembers(ms, rest) + more
    decreases ms
  {
    hide Print, PrintString;
    match ms
    case NoMembers =>
    case Member(lead, key, gap, before, value, after, tail) =>
      var next := if tail.NoMembers? then rest else [COMMA] + PrintMembers(tail, rest);
      PrintMembersPrepends(tail, rest, more);
      Assoc([COMMA], PrintMembers(tail, rest), more);
      Assoc(after, next, more);
      var v := Print(value, after + next);
      PrintPrepends(value, after + next, more);
      Assoc(before, v, more);
      Assoc([COLON], before + v, more);
      Assoc(gap, [COLON] + (before + v), more);
      var x := gap + ([COLON] + (before + v));
      PrintStringPrepends(key, x, more);
      Assoc(lead, PrintString(key, x), more);
  }

  // ---- what a spelled string denotes, and how JSON.stringify spells one ----

  function DecodePiece(p: Piece): CodeUnit
    requires Spelled(p)
  {
    match p
    case Raw(u) => u
    case Short(letter) => ShortEscape(letter).value
    case Hex(a, b, c, d) => ((HexDigit(a) * 16 + HexDigit(b)) * 16 + HexDigit(c)) * 16 + HexDigit(d)
  }

  function Decode(ps: seq<Piece>): (s: Str)
    requires AllSpelled(ps)
    ensures |s| == |ps|
  {
    if ps == [] then [] else [DecodePiece(ps[0])] + Decode(ps[1..])
  }

  /** Decoded keys of an object, in order of appearance. */
  function Keys(ms: Members): seq<Str>
    requires WfMembers(ms)
  {
    if ms.NoMembers? then [] else [Decode(ms.key)] + Keys(ms.tail)
  }
}
