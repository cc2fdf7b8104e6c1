/** parseLlmResponse: what the planner's raw answer has to be before anything else looks at it. */
module LlmResponse {
  import opened Text
  import opened JsonText
  import opened DuplicateKeys
  import opened DuplicateKeysCorrect

  /**
   * The comment on the scanner says it answers false on malformed text. It does not: this text
   * breaks off behind its second key, is no JSON text, and is still reported; LooseScan says which
   * texts are. The promise holds in parseLlmResponse only because JSON.parse has accepted the
   * text before.
   */
  lemma MalformedTextIsReportedToo()
    ensures var s := [LBRACE, QUOTE, QUOTE, COLON, COMMA, QUOTE, QUOTE, COLON];
            HasDuplicateTopLevelKeys(s) && !IsDocument(s)
  {
    var s: Str := [LBRACE, QUOTE, QUOTE, COLON, COMMA, QUOTE, QUOTE, COLON];
    assert s[1..][1..] == [QUOTE, COLON, COMMA, QUOTE, QUOTE, COLON];
    assert s[1..][1..][1..] == [COLON, COMMA, QUOTE, QUOTE, COLON];
    var v: Str := [COMMA, QUOTE, QUOTE, COLON];
    assert [COLON, COMMA, QUOTE, QUOTE, COLON][1..] == v;
    assert SkipValue(v) == Some(v);
    assert v[1..][1..] == [QUOTE, COLON] && [QUOTE, COLON][1..] == [COLON];
    assert ScanMembers(v[1..], {[]});
    BreaksOff(s);
    if d: Document :| WfDocument(d) && PrintDocument(d) == s {
      SkipValueEnds(d.lead, d.value, d.trail);
    }
  }

  lemma BreaksOff(s: Str)
    requires s == [LBRACE, QUOTE, QUOTE, COLON, COMMA, QUOTE, QUOTE, COLON]
    ensures SkipValue(s) == None
  {
    var open, close := LBRACE, RBRACE;
    var v: Str := [COMMA, QUOTE, QUOTE, COLON];
    assert [COLON][1..] == [];
    assert v[1..] == [QUOTE, QUOTE, COLON] && v[1..][1..] == [QUOTE, COLON] && v[1..][1..][1..] == [COLON];
    assert SkipBrackets([COLON], open, close, 1, false) == None;
    assert SkipBrackets([QUOTE, COLON], open, close, 1, true) == None;
    assert SkipBrackets(v, open, close, 1, false) == None;
    var w: Str := [QUOTE, QUOTE, COLON] + v;
    assert w[1..] == [QUOTE, COLON] + v && w[1..][1..] == [COLON] + v && w[1..][1..][1..] == v;
    assert SkipBrackets([COLON] + v, open, close, 1, false) == None;
    assert SkipBrackets(w, open, close, 1, false) == None;
    assert s[1..] == w;
  }

  // ---- parseLlmResponse ----

  const MAX_RESPONSE_BYTES: nat := 64 * 1024

  datatype RawResponse = NotText | RawText(text: Str)

  datatype Refusal = NotTextual | TooLarge | NotStrictJson | DuplicateKeys | NotAnObject
  datatype ParsedResponse = Accepted(document: Document) | Refused(reason: Refusal)

  /** The characters String.prototype.trim removes. */
  predicate IsTrimmed(u: CodeUnit) {
    0x09 <= u <= 0x0D || u == 0x20 || u == 0xA0 || u == 0x1680 || 0x2000 <= u <= 0x200A
    || u == 0x2028 || u == 0x2029 || u == 0x202F || u == 0x205F || u == 0x3000 || u == 0xFEFF
  }

  function Trim(s: Str): Str
    decreases |s|
  {
    if s != [] && IsTrimmed(s[0]) then Trim(s[1..])
    else if s != [] && IsTrimmed(s[|s| - 1]) then Trim(s[..|s| - 1])
    else s
  }

  /** Before i and from j on there are only blank units. */
  predicate BlankOutside(s: Str, i: nat, j: nat) {
    i <= j <= |s| && forall k | 0 <= k < |s| :: k < i || j <= k ==> IsTrimmed(s[k])
  }

  predicate NoBlankEnds(t: Str) { t == [] || (!IsTrimmed(t[0]) && !IsTrimmed(t[|t| - 1])) }

  lemma {:induction false} TrimCuts(s: Str) returns (i: nat, j: nat)
    ensures BlankOutside(s, i, j) && Trim(s) == s[i..j] && NoBlankEnds(s[i..j])
    decreases |s|
  {
    hide IsTrimmed;
    if s != [] && IsTrimmed(s[0]) {
      i, j := TrimCuts(s[1..]);
      i, j := i + 1, j + 1;
      assert s[1..][i - 1..j - 1] == s[i..j];
      assert forall k | 1 <= k < |s| :: s[k] == s[1..][k - 1];
    } else if s != [] && IsTrimmed(s[|s| - 1]) {
      i, j := TrimCuts(s[..|s| - 1]);
      assert s[..|s| - 1][i..j] == s[i..j];
      assert forall k | 0 <= k < |s| - 1 :: s[k] == s[..|s| - 1][k];
    } else {
      i, j := 0, |s|;
      assert s[0..|s|] == s;
    }
  }

  lemma BlankEnds(s: Str, i: nat, j: nat)
    requires BlankOutside(s, i, j) && NoBlankEnds(s[i..j])
    ensures i < j ==> !IsTrimmed(s[i]) && !IsTrimmed(s[j - 1])
  {
    hide IsTrimmed;
    var t := s[i..j];
    assert t != [] ==> t[0] == s[i] && t[|t| - 1] == s[j - 1];
  }

  lemma {:induction false} TrimOf(s: Str, i: nat, j: nat)
    requires BlankOutside(s, i, j) && NoBlankEnds(s[i..j])
    ensures Trim(s) == s[i..j]
    decreases |s|
  {
    hide IsTrimmed;
    BlankEnds(s, i, j);
    if s != [] && IsTrimmed(s[0]) {
      assert forall k | 0 <= k < |s| - 1 :: s[1..][k] == s[k + 1];
      if i == 0 {
        TrimOf(s[1..], 0, 0);
      } else {
        assert s[1..][i - 1..j - 1] == s[i..j];
        TrimOf(s[1..], i - 1, j - 1);
      }
    } else if s != [] && IsTrimmed(s[|s| - 1]) {
      assert s[..|s| - 1][i..j] == s[i..j];
      TrimOf(s[..|s| - 1], i, j);
    } else {
      assert s[0..|s|] == s;
    }
  }

  /** Trimming takes away exactly the blank units at both ends. */
  lemma TrimExactly(s: Str, t: Str)
    ensures Trim(s) == t <==> NoBlankEnds(t) && exists i: nat, j: nat :: BlankOutside(s, i, j) && t == s[i..j]
  {
    var i, j := TrimCuts(s);
    forall i: nat, j: nat | BlankOutside(s, i, j) && t == s[i..j] && NoBlankEnds(t) ensures Trim(s) == t {
      TrimOf(s, i, j);
    }
  }

  /** JSON.parse as far as it matters here: it accepts the JSON texts, and its tree prints back. */
  ghost predicate IsJsonParse(parse: Str -> Option<Document>) {
    forall t :: parse(t).Some? == IsDocument(t)
             && (parse(t).Some? ==> WfDocument(parse(t).value) && PrintDocument(parse(t).value) == t)
  }

  function ParseLlmResponse(parse: Str -> Option<Document>, raw: RawResponse, maxBytes: Option<nat>): ParsedResponse {
    var cap := if maxBytes.Some? then maxBytes.value else MAX_RESPONSE_BYTES;
    if raw.NotText? then Refused(NotTextual)
    else if Utf8Length(raw.text) > cap then Refused(TooLarge)
    else
      var trimmed := Trim(raw.text);
      var value := parse(trimmed);
      if value.None? then Refused(NotStrictJson)
      else if HasDuplicateTopLevelKeys(trimmed) then Refused(DuplicateKeys)
      else if !value.value.value.Obj? then Refused(NotAnObject)
      else Accepted(value.value)
  }

  /** Whether a JSON text is an object can be read off its first character. */
  lemma ObjectStartsWithBrace(d: Document)
    requires WfDocument(d)
    ensures var t := SkipWs(PrintDocument(d)); t != [] && (t[0] == LBRACE <==> d.value.Obj?)
  {
    hide Print, Wf;
    FirstCharacter(d.value, d.trail);
    SkipWsOver(d.lead, Print(d.value, d.trail));
  }

  /**
   * A response is accepted exactly when it is text within the size limit whose trimmed form is
   * an object of the JSON grammar with pairwise different decoded keys at its top level.
   */
  lemma AcceptedExactly(parse: Str -> Option<Document>, raw: RawResponse, maxBytes: Option<nat>)
    requires IsJsonParse(parse)
    ensures var r := ParseLlmResponse(parse, raw, maxBytes);
            r.Accepted? <==>
              && raw.RawText?
              && Utf8Length(raw.text) <= (if maxBytes.Some? then maxBytes.value else MAX_RESPONSE_BYTES)
              && exists d: Document :: WfDocument(d) && PrintDocument(d) == Trim(raw.text)
                   && d.value.Obj? && !HasEqualKeys(Keys(d.value.members))
    ensures var r := ParseLlmResponse(parse, raw, maxBytes);
            r.Accepted? ==>
              && WfDocument(r.document) && r.document.value.Obj?
              && !HasEqualKeys(Keys(r.document.value.members))
              && PrintDocument(r.document) == Trim(raw.text)
  {
    if raw.RawText? {
      var t := Trim(raw.text);
      if parse(t).Some? {
        ScannerAgreesWithTree(parse(t).value);
        ObjectStartsWithBrace(parse(t).value);
      }
      if d: Document :| WfDocument(d) && PrintDocument(d) == t && d.value.Obj? && !HasEqualKeys(Keys(d.value.members)) {
        assert IsDocument(t);
        ScannerAgreesWithTree(d);
        ObjectStartsWithBrace(d);
      }
    }
  }

  /** Every other answer is refused for the first of the four reasons that holds. */
  lemma RefusedExactly(parse: Str -> Option<Document>, raw: RawResponse, maxBytes: Option<nat>)
    requires IsJsonParse(parse)
    ensures var r := ParseLlmResponse(parse, raw, maxBytes);
            var fits := raw.RawText? && Utf8Length(raw.text) <= (if maxBytes.Some? then maxBytes.value else 64 * 1024);
            && (r == Refused(NotTextual) <==> raw.NotText?)
            && (r == Refused(TooLarge) <==> raw.RawText? && !fits)
            && (r == Refused(NotStrictJson) <==> fits && !IsDocument(Trim(raw.text)))
            && (r == Refused(NotAnObject) <==>
                  fits && exists d: Document :: WfDocument(d) && PrintDocument(d) == Trim(raw.text) && !d.value.Obj?)
  {
    hide WfDocument, PrintDocument, HasDuplicateTopLevelKeys, Utf8Length, Keys, HasEqualKeys;
    if raw.RawText? && parse(Trim(raw.text)).Some? {
      var d := parse(Trim(raw.text)).value;
      ScannerAgreesWithTree(d);
      ObjectStartsWithBrace(d);
      forall e: Document | WfDocument(e) && PrintDocument(e) == Trim(raw.text) ensures e.value.Obj? <==> d.value.Obj? {
        ObjectStartsWithBrace(e);
      }
    }
  }
}
