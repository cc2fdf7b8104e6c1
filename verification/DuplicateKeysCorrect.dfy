/**
 * The scanner against the grammar: on every text of the JSON grammar it answers exactly
 * "two top-level members have equal decoded keys".
 */
module DuplicateKeysCorrect {
  import opened Text
  import opened JsonText
  import opened DuplicateKeys

  // ---- white space and strings ----

  lemma {:induction false} SkipWsOver(ws: Str, rest: Str)
    requires AllWs(ws)
    ensures SkipWs(ws + rest) == SkipWs(rest)
  {
    if ws == [] {
      assert ws + rest == rest;
    } else {
      assert (ws + rest)[1..] == ws[1..] + rest;
      SkipWsOver(ws[1..], rest);
    }
  }

  /** Reading a printed string gives back its decoded characters, whatever their spelling. */
  lemma {:induction false} ReadCharsDecodes(ps: seq<Piece>, rest: Str)
    requires AllSpelled(ps)
    ensures ReadChars(PrintPieces(ps, [QUOTE] + rest)) == Some((Decode(ps), rest))
  {
    if ps == [] {
      assert ([QUOTE] + rest)[1..] == rest;
    } else {
      var tail := PrintPieces(ps[1..], [QUOTE] + rest);
      ReadCharsDecodes(ps[1..], rest);
      ReadOnePiece(ps[0], tail);
    }
  }

  lemma ReadOnePiece(p: Piece, tail: Str)
    requires Spelled(p)
    ensures ReadChars(PrintPiece(p) + tail) == Prepend(DecodePiece(p), ReadChars(tail))
  {
    var s := PrintPiece(p) + tail;
    match p
    case Raw(u) => assert s[1..] == tail;
    case Short(letter) => assert s[2..] == tail;
    case Hex(a, b, c, d) => assert s[6..] == tail;
  }

  // ---- the bracket loop passes over whole values ----

  /** No character of `s` matters to the bracket loop outside strings. */
  predicate Plain(s: Str) {
    forall i | 0 <= i < |s| ::
      s[i] != QUOTE && s[i] != LBRACE && s[i] != RBRACE && s[i] != LBRACKET && s[i] != RBRACKET
  }

  predicate BracketPair(open: CodeUnit, close: CodeUnit) {
    (open == LBRACE && close == RBRACE) || (open == LBRACKET && close == RBRACKET)
  }

  lemma {:induction false} BracketsPassPlain(s: Str, rest: Str, open: CodeUnit, close: CodeUnit, depth: nat)
    requires Plain(s) && depth > 0 && BracketPair(open, close)
    ensures SkipBrackets(s + rest, open, close, depth, false) == SkipBrackets(rest, open, close, depth, false)
  {
    if s == [] {
      assert s + rest == rest;
    } else {
      assert (s + rest)[1..] == s[1..] + rest;
      BracketsPassPlain(s[1..], rest, open, close, depth);
    }
  }

  lemma {:induction false} BracketsPassInside(s: Str, rest: Str, open: CodeUnit, close: CodeUnit, depth: nat)
    requires depth > 0 && forall i | 0 <= i < |s| :: s[i] != QUOTE && s[i] != BACKSLASH
    ensures SkipBrackets(s + rest, open, close, depth, true) == SkipBrackets(rest, open, close, depth, true)
  {
    if s == [] {
      assert s + rest == rest;
    } else {
      assert (s + rest)[1..] == s[1..] + rest;
      BracketsPassInside(s[1..], rest, open, close, depth);
    }
  }

  lemma BracketsPassPiece(p: Piece, rest: Str, open: CodeUnit, close: CodeUnit, depth: nat)
    requires WfPiece(p) && depth > 0
    ensures SkipBrackets(PrintPiece(p) + rest, open, close, depth, true) == SkipBrackets(rest, open, close, depth, true)
  {
    var s := PrintPiece(p) + rest;
    match p
    case Raw(u) => assert s[1..] == rest;
    case Short(letter) => assert s[2..] == rest;
    case Hex(a, b, c, d) =>
      assert s[2..] == [a, b, c, d] + rest;
      BracketsPassInside([a, b, c, d], rest, open, close, depth);
  }

  lemma {:induction false} BracketsPassPieces(ps: seq<Piece>, rest: Str, open: CodeUnit, close: CodeUnit, depth: nat)
    requires WfPieces(ps) && depth > 0
    ensures SkipBrackets(PrintPieces(ps, [QUOTE] + rest), open, close, depth, true)
         == SkipBrackets(rest, open, close, depth, false)
  {
    if ps == [] {
      assert ([QUOTE] + rest)[1..] == rest;
    } else {
      BracketsPassPiece(ps[0], PrintPieces(ps[1..], [QUOTE] + rest), open, close, depth);
      BracketsPassPieces(ps[1..], rest, open, close, depth);
    }
  }

  lemma BracketsPassString(ps: seq<Piece>, rest: Str, open: CodeUnit, close: CodeUnit, depth: nat)
    requires WfPieces(ps) && depth > 0 && BracketPair(open, close)
    ensures SkipBrackets(PrintString(ps, rest), open, close, depth, false)
         == SkipBrackets(rest, open, close, depth, false)
  {
    assert PrintString(ps, rest)[1..] == PrintPieces(ps, [QUOTE] + rest);
    BracketsPassPieces(ps, rest, open, close, depth);
  }

  lemma NumberPlain(n: Number)
    requires WfNumber(n)
    ensures PrintNumber(n) != [] && Plain(PrintNumber(n))
    ensures forall i | 0 <= i < |PrintNumber(n)| :: !IsWs(PrintNumber(n)[i]) && !EndsWord(PrintNumber(n)[i])
  {
  }

  lemma BracketsPassOne(u: CodeUnit, rest: Str, open: CodeUnit, close: CodeUnit, depth: nat)
    requires depth > 0 && BracketPair(open, close) && u != QUOTE
    ensures SkipBrackets([u] + rest, open, close, depth, false)
         == SkipBrackets(rest, open, close,
              if u == open then depth + 1 else if u == close then depth - 1 else depth, false)
  {
    assert ([u] + rest)[1..] == rest;
  }

  /**
   * The single-bracket loop, placed in front of any value at any depth, comes out behind it at
   * the same depth, although it never looks at the other kind of bracket.
   */
  lemma {:induction false} BracketsPassValue(v: Value, rest: Str, open: CodeUnit, close: CodeUnit, depth: nat)
    requires Wf(v) && depth > 0 && BracketPair(open, close)
    ensures SkipBrackets(Print(v, rest), open, close, depth, false)
         == SkipBrackets(rest, open, close, depth, false)
    decreases v
  {
    match v
    case Word(w) => BracketsPassPlain(w, rest, open, close, depth);
    case Num(n) =>
      NumberPlain(n);
      BracketsPassPlain(PrintNumber(n), rest, open, close, depth);
    case Text(ps) => BracketsPassString(ps, rest, open, close, depth);
    case Arr(inner, items) =>
      var body := if items.NoItems? then inner + ([RBRACKET] + rest) else PrintItems(items, [RBRACKET] + rest);
      var inside := if open == LBRACKET then depth + 1 else depth;
      BracketsPassOne(LBRACKET, body, open, close, depth);
      if items.NoItems? {
        BracketsPassPlain(inner, [RBRACKET] + rest, open, close, inside);
      } else {
        BracketsPassItems(items, [RBRACKET] + rest, open, close, inside);
      }
      BracketsPassOne(RBRACKET, rest, open, close, inside);
    case Obj(inner, members) =>
      var body := if members.NoMembers? then inner + ([RBRACE] + rest) else PrintMembers(members, [RBRACE] + rest);
      var inside := if open == LBRACE then depth + 1 else depth;
      BracketsPassOne(LBRACE, body, open, close, depth);
      if members.NoMembers? {
        BracketsPassPlain(inner, [RBRACE] + rest, open, close, inside);
      } else {
        BracketsPassMembers(members, [RBRACE] + rest, open, close, inside);
      }
      BracketsPassOne(RBRACE, rest, open, close, inside);
  }

  lemma {:induction false} BracketsPassItems(items: Items, rest: Str, open: CodeUnit, close: CodeUnit, depth: nat)
    requires WfItems(items) && depth > 0 && BracketPair(open, close)
    ensures SkipBrackets(PrintItems(items, rest), open, close, depth, false)
         == SkipBrackets(rest, open, close, depth, false)
    decreases items
  {
    match items
    case NoItems =>
    case Item(before, value, after, tail) =>
      var next := if tail.NoItems? then rest else [COMMA] + PrintItems(tail, rest);
      BracketsPassPlain(before, Print(value, after + next), open, close, depth);
      BracketsPassValue(value, after + next, open, close, depth);
      BracketsPassPlain(after, next, open, close, depth);
      if tail.Item? {
        BracketsPassOne(COMMA, PrintItems(tail, rest), open, close, depth);
        BracketsPassItems(tail, rest, open, close, depth);
      }
  }

  lemma {:induction false} BracketsPassMembers(ms: Members, rest: Str, open: CodeUnit, close: CodeUnit, depth: nat)
    requires WfMembers(ms) && depth > 0 && BracketPair(open, close)
    ensures SkipBrackets(PrintMembers(ms, rest), open, close, depth, false)
         == SkipBrackets(rest, open, close, depth, false)
    decreases ms
  {
    match ms
    case NoMembers =>
    case Member(lead, key, gap, before, value, after, tail) =>
      var next := if tail.NoMembers? then rest else [COMMA] + PrintMembers(tail, rest);
      var v := Print(value, after + next);
      BracketsPassPlain(lead, PrintString(key, gap + ([COLON] + (before + v))), open, close, depth);
      BracketsPassString(key, gap + ([COLON] + (before + v)), open, close, depth);
      BracketsPassPlain(gap, [COLON] + (before + v), open, close, depth);
      BracketsPassOne(COLON, before + v, open, close, depth);
      BracketsPassPlain(before, v, open, close, depth);
      BracketsPassValue(value, after + next, open, close, depth);
      BracketsPassPlain(after, next, open, close, depth);
      if tail.Member? {
        BracketsPassOne(COMMA, PrintMembers(tail, rest), open, close, depth);
        BracketsPassMembers(tail, rest, open, close, depth);
      }
  }

  // ---- where skipValue stops ----

  lemma {:induction false} SkipWordOver(w: Str, rest: Str)
    requires forall i | 0 <= i < |w| :: !EndsWord(w[i])
    ensures SkipWord(w + rest) == SkipWord(rest)
  {
    if w == [] {
      assert w + rest == rest;
    } else {
      assert (w + rest)[1..] == w[1..] + rest;
      SkipWordOver(w[1..], rest);
    }
  }

  predicate IsBare(v: Value) { v.Word? || v.Num? }

  /**
   * skipValue stops exactly at the end of the value it was placed on, with one exception: behind
   * a number, true, false or null it runs on to the next separator.
   */
  lemma SkipValueEnds(before: Str, v: Value, rest: Str)
    requires AllWs(before) && Wf(v)
    ensures SkipValue(before + Print(v, rest)) == Some(if IsBare(v) then SkipWord(rest) else rest)
    ensures SkipValue(before + Print(v, rest)) == Some(rest)
       <==> (IsBare(v) ==> rest == [] || EndsWord(rest[0]))
  {
    hide Print, Wf, SkipBrackets;
    SkipWsOver(before, Print(v, rest));
    if IsBare(v) {
      SkipBareEnds(v, rest);
    } else {
      SkipDelimitedEnds(v, rest);
    }
  }

  lemma SkipBareEnds(v: Value, rest: Str)
    requires Wf(v) && IsBare(v)
    ensures SkipValue(Print(v, rest)) == Some(SkipWord(rest))
    ensures SkipWs(Print(v, rest)) == Print(v, rest)
  {
    hide PrintNumber, SkipBrackets;
    var w := if v.Word? then v.word else PrintNumber(v.number);
    if v.Num? {
      NumberPlain(v.number);
    }
    assert Print(v, rest) == w + rest && (w + rest)[0] == w[0];
    SkipWordOver(w, rest);
  }

  lemma SkipDelimitedEnds(v: Value, rest: Str)
    requires Wf(v) && !IsBare(v)
    ensures SkipValue(Print(v, rest)) == Some(rest)
    ensures SkipWs(Print(v, rest)) == Print(v, rest)
  {
    hide SkipBrackets, PrintMembers, PrintItems, PrintPieces;
    var s := Print(v, rest);
    match v {
      case Text(ps) =>
        assert s[1..] == PrintPieces(ps, [QUOTE] + rest);
        ReadCharsDecodes(ps, rest);
      case Arr(inner, items) =>
        var close := [RBRACKET] + rest;
        assert s[1..] == if items.NoItems? then inner + close else PrintItems(items, close);
        if items.NoItems? {
          BracketsPassPlain(inner, close, LBRACKET, RBRACKET, 1);
        } else {
          BracketsPassItems(items, close, LBRACKET, RBRACKET, 1);
        }
        BracketsEnd(RBRACKET, rest, LBRACKET);
      case Obj(inner, members) =>
        var close := [RBRACE] + rest;
        assert s[1..] == if members.NoMembers? then inner + close else PrintMembers(members, close);
        if members.NoMembers? {
          BracketsPassPlain(inner, close, LBRACE, RBRACE, 1);
        } else {
          BracketsPassMembers(members, close, LBRACE, RBRACE, 1);
        }
        BracketsEnd(RBRACE, rest, LBRACE);
    }
  }

  lemma BracketsEnd(close: CodeUnit, rest: Str, open: CodeUnit)
    requires BracketPair(open, close)
    ensures SkipBrackets([close] + rest, open, close, 1, false) == Some(rest)
  {
    BracketsPassOne(close, rest, open, close, 1);
  }

  // ---- duplicates ----

  predicate HasEqualKeys(keys: seq<Str>) {
    exists a, b :: 0 <= a < b < |keys| && keys[a] == keys[b]
  }

  /** One member under the scanner: its key decides, or the scanner stands at the next member. */
  lemma ScanOneMember(ms: Members, rest: Str, seen: set<Str>)
    requires ms.Member? && WfMembers(ms)
    ensures ScanMembers(PrintMembers(ms, [RBRACE] + rest), seen) <==>
              || Decode(ms.key) in seen
              || (ms.tail.Member? && ScanMembers(PrintMembers(ms.tail, [RBRACE] + rest), seen + {Decode(ms.key)}))
  {
    hide SkipBrackets, SkipValue, Print, SkipWs, Wf, Decode, ReadChars;
    var Member(lead, key, gap, before, value, after, tail) := ms;
    var close := [RBRACE] + rest;
    var next := if tail.NoMembers? then close else [COMMA] + PrintMembers(tail, close);
    var v := Print(value, after + next);
    var colon := [COLON] + (before + v);
    var t := PrintString(key, gap + colon);
    SkipWsOver(lead, t);
    StringIsNoSpace(key, gap + colon);
    assert t[1..] == PrintPieces(key, [QUOTE] + (gap + colon));
    ReadCharsDecodes(key, gap + colon);
    assert SkipWs(gap + colon) == colon by {
      SkipWsOver(gap, colon);
      NoSpace(colon);
    }
    assert colon[1..] == before + v;
    SkipValueEnds(before, value, after + next);
    AfterValue(value, after, next);
    assert tail.Member? ==> next[1..] == PrintMembers(tail, close);
  }

  lemma NoSpace(s: Str)
    requires s != [] && !IsWs(s[0])
    ensures SkipWs(s) == s
  {
  }

  lemma StringIsNoSpace(ps: seq<Piece>, rest: Str)
    ensures SkipWs(PrintString(ps, rest)) == PrintString(ps, rest)
  {
  }

  lemma {:induction false} ScanMembersFindsRepeats(ms: Members, rest: Str, seen: set<Str>)
    requires ms.Member? && WfMembers(ms)
    ensures ScanMembers(PrintMembers(ms, [RBRACE] + rest), seen)
       <==> (exists k | 0 <= k < |Keys(ms)| :: Keys(ms)[k] in seen) || HasEqualKeys(Keys(ms))
    decreases ms
  {
    hide ScanMembers, PrintMembers;
    var decoded, keys := Decode(ms.key), Keys(ms);
    assert keys[0] == decoded && keys[1..] == Keys(ms.tail);
    ScanOneMember(ms, rest, seen);
    if decoded in seen {
      assert keys[0] in seen;
    } else if ms.tail.Member? {
      ScanMembersFindsRepeats(ms.tail, rest, seen + {decoded});
      RepeatsSplit(keys, seen);
    } else {
      assert |keys| == 1;
    }
  }

  /** A repeat or a seen key is found at the first key or among the others. */
  lemma RepeatsSplit(keys: seq<Str>, seen: set<Str>)
    requires keys != [] && keys[0] !in seen
    ensures ((exists k | 0 <= k < |keys| :: keys[k] in seen) || HasEqualKeys(keys))
       <==> ((exists k | 0 <= k < |keys[1..]| :: keys[1..][k] in seen + {keys[0]}) || HasEqualKeys(keys[1..]))
  {
    var rest := keys[1..];
    if k :| 0 <= k < |keys| && keys[k] in seen {
      assert rest[k - 1] in seen + {keys[0]};
    }
    if HasEqualKeys(keys) {
      var a, b :| 0 <= a < b < |keys| && keys[a] == keys[b];
      if a == 0 {
        assert rest[b - 1] in seen + {keys[0]};
      } else {
        assert rest[a - 1] == rest[b - 1];
      }
    }
    if k :| 0 <= k < |rest| && rest[k] in seen + {keys[0]} {
      assert keys[k + 1] in seen || keys[0] == keys[k + 1];
    }
    if HasEqualKeys(rest) {
      var a, b :| 0 <= a < b < |rest| && rest[a] == rest[b];
      assert keys[a + 1] == keys[b + 1];
    }
  }

  lemma AfterValue(value: Value, after: Str, next: Str)
    requires AllWs(after) && next != [] && EndsWord(next[0])
    ensures SkipWs(if IsBare(value) then SkipWord(after + next) else after + next) == next
  {
    SkipWsOver(after, next);
    SkipWordOver(after, next);
  }

  /** The claim the scanner is for: over the whole grammar it agrees with the tree. */
  lemma ScannerAgreesWithTree(d: Document)
    requires WfDocument(d)
    ensures HasDuplicateTopLevelKeys(PrintDocument(d))
       <==> d.value.Obj? && HasEqualKeys(Keys(d.value.members))
  {
    hide SkipBrackets, Wf, PrintMembers;
    FirstCharacter(d.value, d.trail);
    SkipWsOver(d.lead, Print(d.value, d.trail));
    if d.value.Obj? {
      var s, inner, members := Print(d.value, d.trail), d.value.inner, d.value.members;
      assert AllWs(inner) && WfMembers(members) by { WfObject(d.value); }
      var close := [RBRACE] + d.trail;
      ObjectText(d.value, d.trail);
      if members.NoMembers? {
        SkipWsOver(inner, close);
      } else {
        ScanMembersFindsRepeats(members, d.trail, {});
      }
    }
  }

  lemma ObjectText(v: Value, rest: Str)
    requires v.Obj?
    ensures var s := Print(v, rest);
            s[1..] == if v.members.NoMembers? then v.inner + ([RBRACE] + rest) else PrintMembers(v.members, [RBRACE] + rest)
  {
  }

  lemma WfObject(v: Value)
    requires Wf(v) && v.Obj?
    ensures AllWs(v.inner) && WfMembers(v.members)
  {
  }

  /** No value starts with white space, and a brace starts objects only. */
  lemma FirstCharacter(v: Value, rest: Str)
    requires Wf(v)
    ensures var s := Print(v, rest);
            s != [] && !IsWs(s[0]) && SkipWs(s) == s && (s[0] == LBRACE <==> v.Obj?)
  {
    hide PrintNumber, PrintPieces, PrintMembers, PrintItems;
    var s := Print(v, rest);
    match v
    case Word(w) => assert s == w + rest && s[0] == w[0];
    case Num(n) =>
      NumberPlain(n);
      assert s == PrintNumber(n) + rest && s[0] == PrintNumber(n)[0];
    case _ =>
  }
}
