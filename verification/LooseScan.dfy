/**
 * What the scanner reports on texts that are no JSON. It checks far less than the grammar does:
 * a member is a decodable key, a colon and a value of which only the end is looked for. The
 * scanner answers true exactly on the texts that begin like an object with such members and then
 * have a key, with its colon, that an earlier member has already.
 */
module LooseScan {
  import opened Text
  import opened JsonText
  import opened DuplicateKeys
  import opened DuplicateKeysCorrect

  /** Inside a string within brackets: a unit, or a backslash with any unit behind it. */
  datatype Quark = Single(unit: CodeUnit) | Pair(unit: CodeUnit)

  datatype Token = Unit(unit: CodeUnit) | Quoted(quarks: seq<Quark>)

  datatype LooseValue =
    | Spelt(pieces: seq<Piece>)
    | Block(curly: bool, tokens: seq<Token>)
    | Bare(word: Str)

  datatype Opening = Opening(lead: Str, key: seq<Piece>, gap: Str)
  datatype LooseMember = LooseMember(opening: Opening, before: Str, value: LooseValue, after: Str)
  datatype Repeat = Repeat(lead: Str, members: seq<LooseMember>, last: Opening)

  // ---- texts ----

  function QuarksText(qs: seq<Quark>): Str {
    if qs == [] then []
    else (match qs[0] case Single(u) => [u] case Pair(u) => [BACKSLASH, u]) + QuarksText(qs[1..])
  }

  function TokenText(t: Token): Str {
    match t case Unit(u) => [u] case Quoted(qs) => [QUOTE] + (QuarksText(qs) + [QUOTE])
  }

  function TokensText(ts: seq<Token>): Str {
    if ts == [] then [] else TokenText(ts[0]) + TokensText(ts[1..])
  }

  function Open(curly: bool): CodeUnit { if curly then LBRACE else LBRACKET }

  function Close(curly: bool): CodeUnit { if curly then RBRACE else RBRACKET }

  function ValueText(v: LooseValue): Str {
    match v
    case Spelt(ps) => PrintString(ps, [])
    case Block(curly, ts) => [Open(curly)] + (TokensText(ts) + [Close(curly)])
    case Bare(w) => w
  }

  function OpeningText(o: Opening): Str { o.lead + (PrintString(o.key, []) + (o.gap + [COLON])) }

  function MemberText(m: LooseMember): Str {
    OpeningText(m.opening) + (m.before + (ValueText(m.value) + (m.after + [COMMA])))
  }

  function MembersText(ms: seq<LooseMember>): Str {
    if ms == [] then [] else MemberText(ms[0]) + MembersText(ms[1..])
  }

  function RepeatText(r: Repeat): Str { r.lead + ([LBRACE] + (MembersText(r.members) + OpeningText(r.last))) }

  // ---- what is asked of them ----

  predicate WfQuarks(qs: seq<Quark>) {
    forall q | q in qs :: q.Single? ==> q.unit != QUOTE && q.unit != BACKSLASH
  }

  predicate WfToken(t: Token) { match t case Unit(u) => u != QUOTE case Quoted(qs) => WfQuarks(qs) }

  predicate WfTokens(ts: seq<Token>) { forall t | t in ts :: WfToken(t) }

  function Weight(t: Token, curly: bool): int {
    if t == Unit(Open(curly)) then 1 else if t == Unit(Close(curly)) then -1 else 0
  }

  function Height(ts: seq<Token>, curly: bool): int {
    if ts == [] then 0 else Weight(ts[0], curly) + Height(ts[1..], curly)
  }

  /** From `depth` brackets of one kind on, no start of the tokens closes all of them. */
  predicate StaysOpen(ts: seq<Token>, curly: bool, depth: int) {
    forall k | 0 <= k <= |ts| :: depth + Height(ts[..k], curly) >= 1
  }

  predicate WfValue(v: LooseValue) {
    match v
    case Spelt(ps) => AllSpelled(ps)
    case Block(curly, ts) => WfTokens(ts) && Height(ts, curly) == 0 && StaysOpen(ts, curly, 1)
    case Bare(w) =>
      && (forall i | 0 <= i < |w| :: !EndsWord(w[i]))
      && (w != [] ==> !IsWs(w[0]) && w[0] != QUOTE && w[0] != LBRACE && w[0] != LBRACKET)
  }

  predicate WfOpening(o: Opening) { AllWs(o.lead) && AllSpelled(o.key) && AllWs(o.gap) }

  predicate WfMember(m: LooseMember) {
    WfOpening(m.opening) && AllWs(m.before) && WfValue(m.value) && AllWs(m.after)
  }

  predicate HasKey(ms: seq<LooseMember>, key: Str) {
    exists m | m in ms :: WfMember(m) && Decode(m.opening.key) == key
  }

  predicate WfRepeat(r: Repeat) {
    && AllWs(r.lead) && (forall m | m in r.members :: WfMember(m)) && WfOpening(r.last)
    && HasKey(r.members, Decode(r.last.key))
  }

  // ---- brackets ----

  lemma {:induction false} QuarksPass(qs: seq<Quark>, rest: Str, open: CodeUnit, close: CodeUnit, depth: nat)
    requires WfQuarks(qs) && depth > 0
    ensures SkipBrackets(QuarksText(qs) + ([QUOTE] + rest), open, close, depth, true)
         == SkipBrackets(rest, open, close, depth, false)
    decreases |qs|
  {
    var s := QuarksText(qs) + ([QUOTE] + rest);
    if qs == [] {
      assert s[1..] == rest;
    } else {
      var k := if qs[0].Single? then 1 else 2;
      assert s[k..] == QuarksText(qs[1..]) + ([QUOTE] + rest);
      QuarksPass(qs[1..], rest, open, close, depth);
    }
  }

  lemma TokenPasses(t: Token, rest: Str, curly: bool, depth: nat)
    requires WfToken(t) && depth > 0
    ensures SkipBrackets(TokenText(t) + rest, Open(curly), Close(curly), depth, false)
         == SkipBrackets(rest, Open(curly), Close(curly), depth + Weight(t, curly), false)
  {
    hide SkipBrackets, QuarksText;
    match t
    case Unit(u) => BracketsPassOne(u, rest, Open(curly), Close(curly), depth);
    case Quoted(qs) =>
      Assoc([QUOTE], QuarksText(qs) + [QUOTE], rest);
      Assoc(QuarksText(qs), [QUOTE], rest);
      QuotePasses(QuarksText(qs) + ([QUOTE] + rest), Open(curly), Close(curly), depth);
      QuarksPass(qs, rest, Open(curly), Close(curly), depth);
  }

  lemma {:induction false} TokensPass(ts: seq<Token>, rest: Str, curly: bool, depth: nat)
    requires WfTokens(ts) && StaysOpen(ts, curly, depth)
    ensures depth + Height(ts, curly) >= 1
    ensures SkipBrackets(TokensText(ts) + rest, Open(curly), Close(curly), depth, false)
         == SkipBrackets(rest, Open(curly), Close(curly), depth + Height(ts, curly), false)
    decreases |ts|
  {
    hide SkipBrackets, TokenText, WfToken, StaysOpen, Weight, Open, Close;
    if ts == [] {
      OpenAtStart(ts, curly, depth);
      assert TokensText(ts) + rest == rest;
    } else {
      assert ts[0] in ts && forall t | t in ts[1..] :: t in ts;
      StaysOpenFirst(ts, curly, depth);
      OpenAtStart(ts[1..], curly, depth + Weight(ts[0], curly));
      Assoc(TokenText(ts[0]), TokensText(ts[1..]), rest);
      TokenPasses(ts[0], TokensText(ts[1..]) + rest, curly, depth);
      TokensPass(ts[1..], rest, curly, depth + Weight(ts[0], curly));
    }
  }

  lemma OpenAtStart(ts: seq<Token>, curly: bool, depth: int)
    requires StaysOpen(ts, curly, depth)
    ensures depth >= 1
  {
    assert depth + Height(ts[..0], curly) >= 1;
  }

  lemma QuotePasses(s: Str, open: CodeUnit, close: CodeUnit, depth: nat)
    requires depth > 0
    ensures SkipBrackets([QUOTE] + s, open, close, depth, false) == SkipBrackets(s, open, close, depth, true)
  {
    assert ([QUOTE] + s)[1..] == s;
  }

  lemma StaysOpenFirst(ts: seq<Token>, curly: bool, depth: int)
    requires ts != []
    ensures StaysOpen(ts, curly, depth) <==> depth >= 1 && StaysOpen(ts[1..], curly, depth + Weight(ts[0], curly))
  {
    forall k | 0 <= k < |ts|
      ensures Height(ts[..k + 1], curly) == Weight(ts[0], curly) + Height(ts[1..][..k], curly)
    {
      assert ts[..k + 1][1..] == ts[1..][..k];
    }
    assert ts[..0] == [];
    if StaysOpen(ts, curly, depth) {
      assert depth + Height(ts[..0], curly) >= 1;
      forall k | 0 <= k <= |ts[1..]| ensures depth + Weight(ts[0], curly) + Height(ts[1..][..k], curly) >= 1 {
        assert depth + Height(ts[..k + 1], curly) >= 1;
      }
    }
    if depth >= 1 && StaysOpen(ts[1..], curly, depth + Weight(ts[0], curly)) {
      forall k | 0 <= k <= |ts| ensures depth + Height(ts[..k], curly) >= 1 {
        if k > 0 {
          assert depth + Weight(ts[0], curly) + Height(ts[1..][..k - 1], curly) >= 1;
        }
      }
    }
  }

  lemma {:induction false} QuarksSplit(s: Str, open: CodeUnit, close: CodeUnit, depth: nat) returns (qs: seq<Quark>, rest: Str)
    requires SkipBrackets(s, open, close, depth, true).Some? && depth > 0
    ensures WfQuarks(qs) && s == QuarksText(qs) + ([QUOTE] + rest)
    decreases |s|
  {
    if s[0] == QUOTE {
      qs, rest := [], s[1..];
    } else {
      var k := if s[0] == BACKSLASH then 2 else 1;
      var more: seq<Quark>;
      more, rest := QuarksSplit(s[k..], open, close, depth);
      qs := [if k == 2 then Pair(s[1]) else Single(s[0])] + more;
      assert qs[1..] == more && s == s[..k] + s[k..];
      Assoc(s[..k], QuarksText(more), [QUOTE] + rest);
    }
  }

  lemma TokenSplits(s: Str, curly: bool, depth: nat) returns (t: Token, rest: Str)
    requires SkipBrackets(s, Open(curly), Close(curly), depth, false).Some? && depth > 0
    requires s[0] != Close(curly) || depth > 1
    ensures WfToken(t) && s == TokenText(t) + rest && depth + Weight(t, curly) >= 1
    ensures SkipBrackets(rest, Open(curly), Close(curly), depth + Weight(t, curly), false).Some?
  {
    hide QuarksText;
    assert s == [s[0]] + s[1..];
    if s[0] == QUOTE {
      var qs;
      qs, rest := QuarksSplit(s[1..], Open(curly), Close(curly), depth);
      t := Quoted(qs);
      QuarksPass(qs, rest, Open(curly), Close(curly), depth);
      Assoc([QUOTE], QuarksText(qs) + [QUOTE], rest);
      Assoc(QuarksText(qs), [QUOTE], rest);
    } else {
      t, rest := Unit(s[0]), s[1..];
    }
  }

  lemma {:induction false} TokensSplit(s: Str, curly: bool, depth: nat) returns (ts: seq<Token>, rest: Str)
    requires SkipBrackets(s, Open(curly), Close(curly), depth, false).Some? && depth > 0
    ensures WfTokens(ts) && s == TokensText(ts) + ([Close(curly)] + rest)
    ensures depth + Height(ts, curly) == 1 && StaysOpen(ts, curly, depth)
    decreases |s|
  {
    assert s != [];
    hide SkipBrackets, WfToken, Weight, TokenText, Open, Close;
    if s[0] == Close(curly) && depth == 1 {
      ts, rest := [], s[1..];
    } else {
      hide StaysOpen;
      var first, more := TokenSplits(s, curly, depth);
      TokenTextSome(first);
      var tail;
      tail, rest := TokensSplit(more, curly, depth + Weight(first, curly));
      ts := [first] + tail;
      assert ts[1..] == tail && ts[0] == first;
      StaysOpenFirst(ts, curly, depth);
      Assoc(TokenText(first), TokensText(tail), [Close(curly)] + rest);
    }
  }

  lemma TokenTextSome(t: Token)
    ensures TokenText(t) != []
  {
  }

  // ---- white space, keys and values ----

  lemma {:induction false} SkipWsSplits(s: Str) returns (ws: Str)
    ensures AllWs(ws) && s == ws + SkipWs(s)
  {
    if s != [] && IsWs(s[0]) {
      var more := SkipWsSplits(s[1..]);
      ws := [s[0]] + more;
    } else {
      ws := [];
    }
  }

  lemma {:induction false} SkipWordSplits(s: Str) returns (w: Str)
    ensures (forall i | 0 <= i < |w| :: !EndsWord(w[i])) && s == w + SkipWord(s)
  {
    if s != [] && !EndsWord(s[0]) {
      var more := SkipWordSplits(s[1..]);
      w := [s[0]] + more;
    } else {
      w := [];
    }
  }

  lemma {:induction false} ReadCharsSplits(s: Str) returns (ps: seq<Piece>)
    requires ReadChars(s).Some?
    ensures AllSpelled(ps) && s == PrintPieces(ps, [QUOTE] + ReadChars(s).value.1)
    decreases |s|
  {
    if s[0] == QUOTE {
      ps := [];
    } else {
      var p := if s[0] != BACKSLASH then Raw(s[0]) else if s[1] == LOWER_U then Hex(s[2], s[3], s[4], s[5]) else Short(s[1]);
      var k := |PrintPiece(p)|;
      var more := ReadCharsSplits(s[k..]);
      ps := [p] + more;
      assert ps[1..] == more && s == PrintPiece(p) + s[k..];
    }
  }

  lemma StringThen(ps: seq<Piece>, rest: Str)
    ensures PrintString(ps, []) + rest == PrintString(ps, rest)
  {
    PrintStringPrepends(ps, [], rest);
    assert [] + rest == rest;
  }

  lemma StringSplits(s: Str) returns (ps: seq<Piece>, rest: Str)
    requires s != [] && s[0] == QUOTE && ReadChars(s[1..]).Some?
    ensures AllSpelled(ps) && s == PrintString(ps, []) + rest
    ensures ReadChars(s[1..]) == Some((Decode(ps), rest))
  {
    ps := ReadCharsSplits(s[1..]);
    rest := ReadChars(s[1..]).value.1;
    ReadCharsDecodes(ps, rest);
    StringThen(ps, rest);
  }

  lemma BlockPasses(curly: bool, ts: seq<Token>, rest: Str)
    requires WfValue(Block(curly, ts))
    ensures SkipValue(ValueText(Block(curly, ts)) + rest) == Some(rest)
    ensures SkipWs(ValueText(Block(curly, ts)) + rest) == ValueText(Block(curly, ts)) + rest
  {
    hide SkipBrackets, ReadChars, TokensText, SkipWord;
    var t := ValueText(Block(curly, ts)) + rest;
    assert t[1..] == TokensText(ts) + ([Close(curly)] + rest);
    TokensPass(ts, [Close(curly)] + rest, curly, 1);
    BracketsEnd(Close(curly), rest, Open(curly));
  }

  lemma BlockSplits(t: Str) returns (v: LooseValue)
    requires t != [] && (t[0] == LBRACE || t[0] == LBRACKET) && SkipValue(t).Some?
    ensures WfValue(v) && t == ValueText(v) + SkipValue(t).value
  {
    hide SkipBrackets, ReadChars, TokensText, SkipWord;
    var curly := t[0] == LBRACE;
    var ts, rest := TokensSplit(t[1..], curly, 1);
    v := Block(curly, ts);
    assert t == [t[0]] + t[1..];
    assert t == ValueText(v) + rest;
    BlockPasses(curly, ts, rest);
  }

  lemma SkipValueTwice(s: Str)
    ensures SkipValue(SkipWs(s)) == SkipValue(s)
  {
    hide SkipBrackets, ReadChars, SkipWord;
    if SkipWs(s) != [] {
      NoSpace(SkipWs(s));
    }
  }

  /** The scanner comes out of a loose value before a comma exactly at that comma. */
  lemma ValuePasses(before: Str, v: LooseValue, after: Str, rest: Str)
    requires AllWs(before) && WfValue(v) && AllWs(after)
    ensures var w := SkipValue(before + (ValueText(v) + (after + ([COMMA] + rest))));
            w.Some? && SkipWs(w.value) == [COMMA] + rest
  {
    hide SkipBrackets, PrintPieces, ReadChars, TokensText;
    var next := after + ([COMMA] + rest);
    var t := ValueText(v) + next;
    SkipWsOver(before, t);
    SkipWsOver(after, [COMMA] + rest);
    match v {
      case Spelt(ps) =>
        StringThen(ps, next);
        ReadCharsDecodes(ps, next);
        assert t[1..] == PrintPieces(ps, [QUOTE] + next);
      case Block(curly, ts) =>
        BlockPasses(curly, ts, next);
        SkipValueTwice(before + t);
      case Bare(w) =>
        SkipWordOver(w, next);
        SkipWordOver(after, [COMMA] + rest);
        if w == [] {
          assert t == next;
        } else {
          assert t[0] == w[0];
        }
    }
  }

  lemma ValueEnds(t: Str) returns (v: LooseValue)
    requires t != [] && !IsWs(t[0]) && SkipValue(t).Some?
    ensures WfValue(v) && t == ValueText(v) + SkipValue(t).value
  {
    hide SkipBrackets, ReadChars, TokensText, PrintPieces, SkipWord, PrintString;
    NoSpace(t);
    if t[0] == QUOTE {
      var ps, rest := StringSplits(t);
      v := Spelt(ps);
    } else if t[0] == LBRACE || t[0] == LBRACKET {
      v := BlockSplits(t);
    } else {
      v := WordSplits(t);
    }
  }

  lemma WordSplits(t: Str) returns (v: LooseValue)
    requires t != [] && !IsWs(t[0]) && t[0] != QUOTE && t[0] != LBRACE && t[0] != LBRACKET
    ensures WfValue(v) && t == ValueText(v) + SkipWord(t)
  {
    var word := SkipWordSplits(t);
    v := Bare(word);
    assert word != [] ==> t[0] == word[0];
  }

  lemma ValueSplits(s: Str) returns (before: Str, v: LooseValue, after: Str, rest: Str)
    requires SkipValue(s).Some? && SkipWs(SkipValue(s).value) != [] && SkipWs(SkipValue(s).value)[0] == COMMA
    ensures AllWs(before) && WfValue(v) && AllWs(after)
    ensures s == before + (ValueText(v) + (after + ([COMMA] + rest)))
  {
    var t, w := SkipWs(s), SkipValue(s).value;
    assert t != [];
    hide SkipValue, WfValue, ValueText, SkipWs;
    rest := SkipWs(w)[1..];
    before := SkipWsSplits(s);
    after := SkipWsSplits(w);
    SkipValueTwice(s);
    v := ValueEnds(t);
    assert SkipWs(w) == [COMMA] + rest;
  }

  // ---- members ----

  predicate ScanBehindColon(s: Str, seen: set<Str>) {
    match SkipValue(s)
    case None => false
    case Some(w) => var x := SkipWs(w); x != [] && x[0] == COMMA && ScanMembers(x[1..], seen)
  }

  lemma ScanOpening(o: Opening, rest: Str, seen: set<Str>)
    requires WfOpening(o)
    ensures ScanMembers(OpeningText(o) + rest, seen) <==>
              Decode(o.key) in seen || ScanBehindColon(rest, seen + {Decode(o.key)})
  {
    hide SkipValue, ReadChars, SkipWs, PrintPieces, Decode;
    var colon := [COLON] + rest;
    OpeningThen(o, rest);
    SkipWsOver(o.lead, PrintString(o.key, o.gap + colon));
    StringIsNoSpace(o.key, o.gap + colon);
    ReadCharsDecodes(o.key, o.gap + colon);
    assert PrintString(o.key, o.gap + colon)[1..] == PrintPieces(o.key, [QUOTE] + (o.gap + colon));
    SkipWsOver(o.gap, colon);
    NoSpace(colon);
    assert colon[1..] == rest;
  }

  lemma OpeningThen(o: Opening, rest: Str)
    ensures OpeningText(o) + rest == o.lead + PrintString(o.key, o.gap + ([COLON] + rest))
  {
    hide PrintString;
    var key, gap := PrintString(o.key, []), o.gap + [COLON];
    Assoc(o.lead, key + gap, rest);
    Assoc(key, gap, rest);
    Assoc(o.gap, [COLON], rest);
    StringThen(o.key, o.gap + ([COLON] + rest));
  }

  lemma OpeningSplits(s: Str, seen: set<Str>) returns (o: Opening, rest: Str)
    requires ScanMembers(s, seen)
    ensures WfOpening(o) && s == OpeningText(o) + rest
  {
    hide SkipValue, ReadChars, SkipWs, PrintPieces;
    var lead := SkipWsSplits(s);
    var t := SkipWs(s);
    var ps, r := StringSplits(t);
    var gap := SkipWsSplits(r);
    rest := SkipWs(r)[1..];
    o := Opening(lead, ps, gap);
    assert SkipWs(r) == [COLON] + rest;
    OpeningThen(o, rest);
    StringThen(ps, gap + ([COLON] + rest));
  }

  lemma MemberThen(m: LooseMember, rest: Str)
    ensures MemberText(m) + rest
         == OpeningText(m.opening) + (m.before + (ValueText(m.value) + (m.after + ([COMMA] + rest))))
  {
    hide OpeningText, ValueText;
    var v, after := ValueText(m.value), m.after + [COMMA];
    Assoc(OpeningText(m.opening), m.before + (v + after), rest);
    Assoc(m.before, v + after, rest);
    Assoc(v, after, rest);
    Assoc(m.after, [COMMA], rest);
  }

  /** One loose member under the scanner: its key decides, or the scanner stands behind its comma. */
  lemma ScanLooseMember(m: LooseMember, rest: Str, seen: set<Str>)
    requires WfMember(m)
    ensures ScanMembers(MemberText(m) + rest, seen) <==>
              Decode(m.opening.key) in seen || ScanMembers(rest, seen + {Decode(m.opening.key)})
  {
    hide MemberText, OpeningText, ScanMembers, SkipValue, SkipWs, ValueText, Decode;
    MemberThen(m, rest);
    ValuePasses(m.before, m.value, m.after, rest);
    ScanOpening(m.opening, m.before + (ValueText(m.value) + (m.after + ([COMMA] + rest))), seen);
    assert ([COMMA] + rest)[1..] == rest;
  }

  lemma {:induction false} RepeatIsReported(ms: seq<LooseMember>, last: Opening, rest: Str, seen: set<Str>)
    requires (forall m | m in ms :: WfMember(m)) && WfOpening(last)
    requires Decode(last.key) in seen || HasKey(ms, Decode(last.key))
    ensures ScanMembers(MembersText(ms) + (OpeningText(last) + rest), seen)
    decreases |ms|
  {
    hide ScanMembers, MemberText, OpeningText, Decode, ScanBehindColon, WfValue, AllWs;
    var tail := OpeningText(last) + rest;
    if ms == [] {
      assert MembersText(ms) + tail == tail;
      ScanOpening(last, rest, seen);
    } else {
      assert ms[0] in ms && WfMember(ms[0]);
      var key := Decode(ms[0].opening.key);
      Assoc(MemberText(ms[0]), MembersText(ms[1..]), tail);
      ScanLooseMember(ms[0], MembersText(ms[1..]) + tail, seen);
      HasKeyFirst(ms, Decode(last.key));
      RepeatIsReported(ms[1..], last, rest, seen + {key});
    }
  }

  lemma HasKeyFirst(ms: seq<LooseMember>, key: Str)
    requires ms != [] && WfMember(ms[0])
    ensures HasKey(ms, key) <==> Decode(ms[0].opening.key) == key || HasKey(ms[1..], key)
  {
    assert ms == [ms[0]] + ms[1..];
  }

  lemma {:induction false} ReportedHasRepeat(s: Str, seen: set<Str>) returns (ms: seq<LooseMember>, last: Opening, rest: Str)
    requires ScanMembers(s, seen)
    ensures (forall m | m in ms :: WfMember(m)) && WfOpening(last)
    ensures Decode(last.key) in seen || HasKey(ms, Decode(last.key))
    ensures s == MembersText(ms) + (OpeningText(last) + rest)
    decreases |s|
  {
    hide ScanMembers, MemberText, OpeningText, Decode, SkipValue, SkipWs;
    var o, more := OpeningSplits(s, seen);
    ScanOpening(o, more, seen);
    if Decode(o.key) in seen {
      ms, last, rest := [], o, more;
    } else {
      var before, v, after, tail := ValueSplits(more);
      var m := LooseMember(o, before, v, after);
      MemberThen(m, tail);
      ScanLooseMember(m, tail, seen);
      Shorter(m, tail);
      var others;
      others, last, rest := ReportedHasRepeat(tail, seen + {Decode(o.key)});
      ms := [m] + others;
      assert ms[1..] == others && ms[0] == m;
      HasKeyFirst(ms, Decode(last.key));
      Assoc(MemberText(m), MembersText(others), OpeningText(last) + rest);
    }
  }

  lemma Shorter(m: LooseMember, rest: Str)
    ensures |rest| < |MemberText(m) + rest|
  {
    hide OpeningText, ValueText;
  }

  /** The scanner reports a text exactly when the text begins with a repeat of the loose grammar. */
  lemma ReportedExactly(s: Str)
    ensures HasDuplicateTopLevelKeys(s) <==> exists r: Repeat :: WfRepeat(r) && RepeatText(r) <= s
  {
    hide ScanMembers, MembersText, OpeningText, Decode, HasKey, SkipWs, WfOpening, WfMember;
    if HasDuplicateTopLevelKeys(s) {
      var lead := SkipWsSplits(s);
      var t := SkipWs(s);
      var ms, last, rest := ReportedHasRepeat(t[1..], {});
      var r := Repeat(lead, ms, last);
      assert t == [LBRACE] + t[1..];
      RepeatThen(r, rest);
      assert s == RepeatText(r) + rest;
    }
    forall r: Repeat | WfRepeat(r) && RepeatText(r) <= s ensures HasDuplicateTopLevelKeys(s) {
      var rest := s[|RepeatText(r)|..];
      assert s == RepeatText(r) + rest;
      RepeatThen(r, rest);
      var members := MembersText(r.members) + (OpeningText(r.last) + rest);
      SkipWsOver(r.lead, [LBRACE] + members);
      NoSpace([LBRACE] + members);
      assert ([LBRACE] + members)[1..] == members;
      RepeatIsReported(r.members, r.last, rest, {});
    }
  }

  lemma RepeatThen(r: Repeat, rest: Str)
    ensures RepeatText(r) + rest == r.lead + ([LBRACE] + (MembersText(r.members) + (OpeningText(r.last) + rest)))
  {
    hide MembersText, OpeningText;
    var ms, last := MembersText(r.members), OpeningText(r.last);
    Assoc(r.lead, [LBRACE] + (ms + last), rest);
    Assoc([LBRACE], ms + last, rest);
    Assoc(ms, last, rest);
  }

  /** Once the scanner has seen a repeated key, nothing that follows can change its answer. */
  lemma RepeatIsFinal(s: Str, more: Str)
    requires HasDuplicateTopLevelKeys(s)
    ensures HasDuplicateTopLevelKeys(s + more)
  {
    ReportedExactly(s);
    ReportedExactly(s + more);
  }
}
