/**
 * The duplicate-key scanner of src/llm/response.ts: a one-pass cursor that never builds the tree.
 *
 * The functions describe the scanner on the unread rest of the text; the class `Scanner` is the
 * cursor itself and is proved against them. The lemmas then compare the scanner with the grammar.
 */
module DuplicateKeys {
  import opened Text
  import opened JsonText

  // ---- the scanner as functions of the unread text ----

  function SkipWs(s: Str): (r: Str)
    ensures |r| <= |s|
    ensures r == [] || !IsWs(r[0])
  {
    if s != [] && IsWs(s[0]) then SkipWs(s[1..]) else s
  }

  /** The string whose opening quote has just been passed, decoded, and the text after its closing quote. */
  function ReadChars(s: Str): (r: Option<(Str, Str)>)
    ensures r.Some? ==> |r.value.1| < |s|
  {
    if s == [] then None
    else if s[0] == BACKSLASH then
      if |s| < 2 then None
      else if s[1] == LOWER_U then
        if |s| >= 6 && IsHexDigit(s[2]) && IsHexDigit(s[3]) && IsHexDigit(s[4]) && IsHexDigit(s[5]) then
          Prepend(DecodePiece(Hex(s[2], s[3], s[4], s[5])), ReadChars(s[6..]))
        else None
      else if ShortEscape(s[1]).None? then None
      else Prepend(ShortEscape(s[1]).value, ReadChars(s[2..]))
    else if s[0] == QUOTE then Some(([], s[1..]))
    else Prepend(s[0], ReadChars(s[1..]))
  }

  function Prepend(u: CodeUnit, r: Option<(Str, Str)>): Option<(Str, Str)> {
    match r case None => None case Some((out, rest)) => Some(([u] + out, rest))
  }

  /** The depth-counting loop: it follows one kind of bracket only. */
  function SkipBrackets(s: Str, open: CodeUnit, close: CodeUnit, depth: nat, inStr: bool): (r: Option<Str>)
    ensures r.Some? ==> |r.value| <= |s|
    decreases |s|
  {
    if depth == 0 then Some(s)
    else if s == [] then None
    else if inStr then
      if s[0] == BACKSLASH then
        if |s| < 2 then None else SkipBrackets(s[2..], open, close, depth, true)
      else SkipBrackets(s[1..], open, close, depth, s[0] != QUOTE)
    else if s[0] == QUOTE then SkipBrackets(s[1..], open, close, depth, true)
    else SkipBrackets(s[1..], open, close,
      if s[0] == open then depth + 1 else if s[0] == close then depth - 1 else depth, false)
  }

  predicate EndsWord(u: CodeUnit) { u == COMMA || u == RBRACE || u == RBRACKET }

  function SkipWord(s: Str): (r: Str)
    ensures |r| <= |s|
    ensures r == [] || EndsWord(r[0])
  {
    if s != [] && !EndsWord(s[0]) then SkipWord(s[1..]) else s
  }

  function SkipValue(s: Str): (r: Option<Str>)
    ensures r.Some? ==> |r.value| <= |s|
  {
    var t := SkipWs(s);
    if t == [] then None
    else if t[0] == QUOTE then
      match ReadChars(t[1..]) case None => None case Some((_, rest)) => Some(rest)
    else if t[0] == LBRACE then SkipBrackets(t[1..], LBRACE, RBRACE, 1, false)
    else if t[0] == LBRACKET then SkipBrackets(t[1..], LBRACKET, RBRACKET, 1, false)
    else Some(SkipWord(t))
  }

  function ScanMembers(s: Str, seen: set<Str>): bool
    decreases |s|
  {
    var t := SkipWs(s);
    if t == [] || t[0] != QUOTE then false
    else match ReadChars(t[1..])
      case None => false
      case Some((key, r)) =>
        var u := SkipWs(r);
        if u == [] || u[0] != COLON then false
        else if key in seen then true
        else match SkipValue(u[1..])
          case None => false
          case Some(w) =>
            var x := SkipWs(w);
            if x != [] && x[0] == COMMA then ScanMembers(x[1..], seen + {key}) else false
  }

  function HasDuplicateTopLevelKeys(text: Str): bool {
    var t := SkipWs(text);
    t != [] && t[0] == LBRACE && ScanMembers(t[1..], {})
  }

  // ---- the cursor ----

  class Scanner {
    const text: Str
    var i: nat
    var seen: set<Str>

    constructor (text: Str)
      ensures this.text == text && i == 0 && seen == {}
    {
      this.text := text;
      i, seen := 0, {};
    }

    ghost predicate Valid()
      reads this
    {
      i <= |text|
    }

    /** What the cursor has not passed yet. */
    ghost function Unread(): Str
      requires Valid()
      reads this
    {
      text[i..]
    }

    method SkipWhite()
      requires Valid()
      modifies this`i
      ensures Valid() && i >= old(i)
      ensures Unread() == SkipWs(old(Unread()))
    {
      while i < |text| && IsWs(text[i])
        invariant old(i) <= i <= |text|
        invariant SkipWs(text[i..]) == SkipWs(old(Unread()))
      {
        i := i + 1;
      }
    }

    method ReadString() returns (r: Option<Str>)
      requires Valid() && i < |text| && text[i] == QUOTE
      modifies this`i
      ensures r.Some? == ReadChars(old(Unread())[1..]).Some?
      ensures r.Some? ==> Valid() && i > old(i) && (r.value, Unread()) == ReadChars(old(Unread())[1..]).value
    {
      var out: Str := [];
      i := i + 1;
      ghost var start := text[i..];
      assert start == old(Unread())[1..];
      ReadSoFarNothing(ReadChars(start));
      while i < |text|
        invariant old(i) < i <= |text|
        invariant ReadChars(start) == ReadSoFar(out, ReadChars(text[i..]))
        decreases |text| - i
      {
        ghost var here := text[i..];
        var ch := text[i];
        if ch == BACKSLASH {
          if i + 1 >= |text| {
            return None;
          }
          var next := text[i + 1];
          if next == LOWER_U {
            if |text| < i + 6 || !IsHexDigit(text[i + 2]) || !IsHexDigit(text[i + 3])
               || !IsHexDigit(text[i + 4]) || !IsHexDigit(text[i + 5]) {
              return None;
            }
            ReadSoFarOneMore(out, DecodePiece(Hex(text[i + 2], text[i + 3], text[i + 4], text[i + 5])), ReadChars(here[6..]));
            out := out + [DecodePiece(Hex(text[i + 2], text[i + 3], text[i + 4], text[i + 5]))];
            i := i + 6;
            assert here[6..] == text[i..];
            continue;
          }
          var mapped := ShortEscape(next);
          if mapped.None? {
            return None;
          }
          ReadSoFarOneMore(out, mapped.value, ReadChars(here[2..]));
          out := out + [mapped.value];
          i := i + 2;
          assert here[2..] == text[i..];
          continue;
        }
        if ch == QUOTE {
          i := i + 1;
          assert here[1..] == text[i..] && out + [] == out;
          return Some(out);
        }
        ReadSoFarOneMore(out, ch, ReadChars(here[1..]));
        out := out + [ch];
        i := i + 1;
        assert here[1..] == text[i..];
      }
      return None;
    }

    method SkipOneValue() returns (ok: bool)
      requires Valid()
      modifies this`i
      ensures ok == SkipValue(old(Unread())).Some?
      ensures ok ==> Valid() && Unread() == SkipValue(old(Unread())).value
    {
      SkipWhite();
      ghost var t := Unread();
      if i >= |text| {
        return false;
      }
      var ch := text[i];
      if ch == QUOTE {
        var r := ReadString();
        return r.Some?;
      }
      if ch == LBRACE || ch == LBRACKET {
        ok := SkipContainer(ch, if ch == LBRACE then RBRACE else RBRACKET);
        return;
      }
      SkipBareWord();
      return true;
    }

    /** The bracket loop of skipValue, entered at the opening bracket. */
    method SkipContainer(open: CodeUnit, close: CodeUnit) returns (ok: bool)
      requires Valid() && i < |text|
      modifies this`i
      ensures ok == SkipBrackets(old(Unread())[1..], open, close, 1, false).Some?
      ensures ok ==> Valid() && Some(Unread()) == SkipBrackets(old(Unread())[1..], open, close, 1, false)
    {
      i := i + 1;
      ghost var start := text[i..];
      assert start == old(Unread())[1..];
      var depth := 1;
      var inStr := false;
      while i < |text| && depth > 0
        invariant depth >= 0 && (depth == 0 ==> i <= |text|)
        invariant SkipBrackets(start, open, close, 1, false)
               == if i > |text| then None else SkipBrackets(text[i..], open, close, depth, inStr)
        decreases |text| - i
      {
        ghost var here := text[i..];
        var c := text[i];
        if inStr {
          if c == BACKSLASH {
            i := i + 2;
            assert i <= |text| ==> here[2..] == text[i..];
            continue;
          }
          if c == QUOTE {
            inStr := false;
          }
          i := i + 1;
          assert here[1..] == text[i..];
          continue;
        }
        if c == QUOTE {
          inStr := true;
          i := i + 1;
          assert here[1..] == text[i..];
          continue;
        }
        if c == open {
          depth := depth + 1;
        } else if c == close {
          depth := depth - 1;
        }
        i := i + 1;
        assert here[1..] == text[i..];
      }
      return depth == 0;
    }

    /** The last loop of skipValue: numbers, true, false and null. */
    method SkipBareWord()
      requires Valid()
      modifies this`i
      ensures Valid() && Unread() == SkipWord(old(Unread()))
    {
      while i < |text| && text[i] != COMMA && text[i] != RBRACE && text[i] != RBRACKET
        invariant Valid() && SkipWord(text[i..]) == SkipWord(old(Unread()))
      {
        i := i + 1;
      }
    }

    /**
     * One round of the loop: a key, a colon, a value and a comma. The answer of the whole scan when
     * it is known, or nothing when the next member has to be looked at.
     */
    method ScanMember() returns (answer: Option<bool>)
      requires Valid()
      modifies this
      ensures answer.Some? ==> answer.value == ScanMembers(old(Unread()), old(seen))
      ensures answer.None? ==>
                Valid() && i > old(i) && ScanMembers(Unread(), seen) == ScanMembers(old(Unread()), old(seen))
    {
      hide SkipWs, ReadChars, SkipValue;
      SkipWhite();
      if i >= |text| || text[i] == RBRACE || text[i] != QUOTE {
        return Some(false);
      }
      var key := ReadString();
      if key.None? {
        return Some(false);
      }
      SkipWhite();
      if i >= |text| || text[i] != COLON {
        return Some(false);
      }
      if key.value in seen {
        return Some(true);
      }
      ghost var u := Unread();
      seen := seen + {key.value};
      i := i + 1;
      assert text[i..] == u[1..];
      var ok := SkipOneValue();
      if !ok {
        return Some(false);
      }
      SkipWhite();
      ghost var x := Unread();
      if i >= |text| || text[i] != COMMA {
        return Some(false);
      }
      i := i + 1;
      assert text[i..] == x[1..];
      return None;
    }

    method Scan() returns (dup: bool)
      requires Valid() && i == 0 && seen == {}
      modifies this
      ensures dup == HasDuplicateTopLevelKeys(text)
    {
      hide SkipWs, ScanMembers;
      assert Unread() == text;
      SkipWhite();
      if i >= |text| || text[i] != LBRACE {
        return false;
      }
      ghost var t := Unread();
      i := i + 1;
      assert text[i..] == t[1..];
      while true
        invariant Valid()
        invariant HasDuplicateTopLevelKeys(text) == ScanMembers(Unread(), seen)
        decreases |text| - i
      {
        var answer := ScanMember();
        if answer.Some? {
          return answer.value;
        }
      }
    }
  }

  /** Characters already read, put back in front of what is still to be read. */
  ghost function ReadSoFar(out: Str, r: Option<(Str, Str)>): Option<(Str, Str)> {
    match r case None => None case Some((more, rest)) => Some((out + more, rest))
  }

  lemma ReadSoFarNothing(r: Option<(Str, Str)>)
    ensures ReadSoFar([], r) == r
  {
    if r.Some? {
      assert [] + r.value.0 == r.value.0;
    }
  }

  lemma ReadSoFarOneMore(out: Str, u: CodeUnit, r: Option<(Str, Str)>)
    ensures ReadSoFar(out, Prepend(u, r)) == ReadSoFar(out + [u], r)
  {
    if r.Some? {
      assert out + ([u] + r.value.0) == (out + [u]) + r.value.0;
    }
  }
}
