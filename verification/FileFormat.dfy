/** The files as JSON texts: which keys their objects have, in which order, and what stands behind them. */
module FileFormat {
  import opened Text
  import opened JsonText
  import opened JsonStringify
  import opened Spelling
  import opened Kernel
  import opened AuditStore
  import opened MemoryStore
  import opened Boot

  function Values(ms: Members): seq<Value> {
    match ms case NoMembers => [] case Member(_, _, _, _, value, _, tail) => [value] + Values(tail)
  }

  /** The value spells this text, or this number in decimal. */
  predicate Carries(v: Value, f: FieldValue) {
    match f
    case StrField(t) => v.Text? && DenoteAll(v.pieces, t)
    case IntField(n) =>
      && v.Num? && !v.number.negative && v.number.fraction == [] && v.number.exponent.NoExponent?
      && AllDigits(v.number.whole) && DecimalValue(v.number.whole) == n
  }

  /** The text is a JSON object with these keys and values, in this order, without white space. */
  ghost predicate IsObject(t: Str, names: seq<Str>, values: seq<FieldValue>) {
    exists d: Document ::
      && WfDocument(d) && PrintDocument(d) == t && d.value.Obj?
      && d.lead == [] == d.trail && Compact(d.value.members) && MembersAre(d.value.members, names, values)
  }

  /** No white space anywhere. */
  predicate Compact(ms: Members) {
    match ms
    case NoMembers => true
    case Member(lead, _, gap, before, _, after, tail) =>
      lead == [] && gap == [] && before == [] && after == [] && Compact(tail)
  }

  predicate MembersAre(ms: Members, names: seq<Str>, values: seq<FieldValue>) {
    && |KeySpellings(ms)| == |Values(ms)| == |names| == |values|
    && forall i | 0 <= i < |names| :: DenoteAll(KeySpellings(ms)[i], names[i]) && Carries(Values(ms)[i], values[i])
  }

  // ---- how JSON.stringify spells a string ----

  /** A surrogate that is half of a pair. */
  predicate Paired(s: Str, i: int) {
    0 <= i < |s| && ((IsHighSurrogate(s[i]) && i + 1 < |s| && IsLowSurrogate(s[i + 1])) || (IsLowSurrogate(s[i]) && i > 0 && IsHighSurrogate(s[i - 1])))
  }

  /** One unit by itself: as it is, by its short escape, or by a hexadecimal escape in lower case. */
  lemma SpellExactly(u: CodeUnit)
    ensures var p := Spell(u);
            && (p.Raw? <==> u >= 0x20 && u != 0x22 && u != 0x5C && !(0xD800 <= u < 0xE000))
            && (p.Short? <==> u in {0x22, 0x5C, 8, 9, 10, 12, 13})
            && (p.Hex? ==>
                  && p.h0 == LOWER_DIGITS[u / 4096] && p.h1 == LOWER_DIGITS[u / 256 % 16]
                  && p.h2 == LOWER_DIGITS[u / 16 % 16] && p.h3 == LOWER_DIGITS[u % 16])
  {
    if Spell(u).Hex? {
      var q := u / 16;
      var r := q / 16;
      assert u / 256 == r && u / 4096 == r / 16;
      LowerLetter(u / 4096);
      LowerLetter(u / 256 % 16);
      LowerLetter(u / 16 % 16);
      LowerLetter(u % 16);
    }
  }

  lemma LowerLetter(d: nat)
    requires d < 16
    ensures LowerHex(d) == LOWER_DIGITS[d]
  {
    assert LOWER_DIGITS == [0x30, 0x31, 0x32, 0x33, 0x34, 0x35, 0x36, 0x37, 0x38, 0x39, 0x61, 0x62, 0x63, 0x64, 0x65, 0x66];
  }

  /** A string is spelled unit by unit; only a surrogate of a pair is left as it is. */
  lemma {:induction false} QuoteExactly(s: Str)
    ensures |Quote(s)| == |s|
    ensures forall i | 0 <= i < |s| :: Quote(s)[i] == if Paired(s, i) then Raw(s[i]) else Spell(s[i])
    decreases |s|
  {
    hide Spell, Decode;
    if s == [] {
    } else {
      var k := if |s| >= 2 && IsHighSurrogate(s[0]) && IsLowSurrogate(s[1]) then 2 else 1;
      var rest := s[k..];
      QuoteExactly(rest);
      assert Quote(s)[k..] == Quote(rest);
      forall i | k <= i < |s| ensures Quote(s)[i] == Quote(rest)[i - k] && rest[i - k] == s[i] && (Paired(s, i) <==> Paired(rest, i - k)) {
        assert Quote(s)[i] == Quote(s)[k..][i - k];
        assert i + 1 < |s| ==> s[i + 1] == rest[i + 1 - k];
        assert i > k ==> s[i - 1] == rest[i - 1 - k];
      }
    }
  }

  // ---- objects ----

  lemma ValueCarries(f: FieldValue)
    ensures Carries(ToValue(f), f)
  {
    match f
    case StrField(t) => DecodeExactly(Quote(t), t);
    case IntField(n) => DigitsValue(n);
  }

  lemma {:induction false} MembersCarry(fs: seq<Field>, names: seq<Str>, values: seq<FieldValue>)
    requires |names| == |values| == |fs| && forall i | 0 <= i < |fs| :: fs[i] == Field(names[i], values[i])
    ensures MembersAre(ToMembers(fs), names, values) && Compact(ToMembers(fs))
    decreases |fs|
  {
    hide Carries, ToValue, DenoteAll, Quote;
    if fs == [] {
    } else {
      MembersCarry(fs[1..], names[1..], values[1..]);
      ValueCarries(values[0]);
      DecodeExactly(Quote(names[0]), names[0]);
    }
  }

  lemma StringifyReads(fs: seq<Field>, names: seq<Str>, values: seq<FieldValue>)
    requires |names| == |values| == |fs| && forall i | 0 <= i < |fs| :: fs[i] == Field(names[i], values[i])
    ensures IsObject(Stringify(fs), names, values)
  {
    hide MembersAre, ToMembers, Compact;
    MembersCarry(fs, names, values);
    var d := Document([], ToObject(fs), []);
    assert PrintDocument(d) == Stringify(fs);
  }

  /** A line of the audit file: version, number, time, epoch, type, detail, sleep state, the hash before and its own. */
  lemma AuditLineFormat(e: Event)
    ensures IsObject(Line(e),
      [Ascii("v"), Ascii("seq"), Ascii("ts"), Ascii("epoch"), Ascii("type"), Ascii("detail"), Ascii("sleep"), Ascii("prevHash"), Ascii("hash")],
      [IntField(1), IntField(e.body.number), StrField(e.body.ts), IntField(e.body.epoch), StrField(e.body.kind), StrField(e.body.detail),
       StrField(if e.body.sleep == AWAKE then Ascii("AWAKE") else Ascii("SLEEP")), StrField(e.body.prevHash), StrField(e.hash)])
    ensures IsObject(CanonicalBytes(e.body),
      [Ascii("v"), Ascii("seq"), Ascii("ts"), Ascii("epoch"), Ascii("type"), Ascii("detail"), Ascii("sleep"), Ascii("prevHash")],
      [IntField(1), IntField(e.body.number), StrField(e.body.ts), IntField(e.body.epoch), StrField(e.body.kind), StrField(e.body.detail),
       StrField(if e.body.sleep == AWAKE then Ascii("AWAKE") else Ascii("SLEEP")), StrField(e.body.prevHash)])
  {
    hide IsObject, Stringify;
    var names := [Ascii("v"), Ascii("seq"), Ascii("ts"), Ascii("epoch"), Ascii("type"), Ascii("detail"), Ascii("sleep"), Ascii("prevHash")];
    var values := [IntField(1), IntField(e.body.number), StrField(e.body.ts), IntField(e.body.epoch), StrField(e.body.kind), StrField(e.body.detail),
       StrField(if e.body.sleep == AWAKE then Ascii("AWAKE") else Ascii("SLEEP")), StrField(e.body.prevHash)];
    StringifyReads(BodyFields(e.body), names, values);
    StringifyReads(BodyFields(e.body) + [Field(Ascii("hash"), StrField(e.hash))], names + [Ascii("hash")], values + [StrField(e.hash)]);
    assert names + [Ascii("hash")] == [Ascii("v"), Ascii("seq"), Ascii("ts"), Ascii("epoch"), Ascii("type"), Ascii("detail"), Ascii("sleep"), Ascii("prevHash"), Ascii("hash")];
    assert values + [StrField(e.hash)] == [IntField(1), IntField(e.body.number), StrField(e.body.ts), IntField(e.body.epoch), StrField(e.body.kind), StrField(e.body.detail),
       StrField(if e.body.sleep == AWAKE then Ascii("AWAKE") else Ascii("SLEEP")), StrField(e.body.prevHash), StrField(e.hash)];
  }

  function KindText(k: MemoryKind): Str {
    match k
    case Fact => Ascii("fact")
    case Preference => Ascii("preference")
    case Project => Ascii("project")
    case Instruction => Ascii("instruction")
  }

  /** A record of the memory file. */
  lemma MemoryRecordFormat(r: Record)
    ensures IsObject(Stringify(RecordFields(r)),
      [Ascii("v"), Ascii("id"), Ascii("content"), Ascii("kind"), Ascii("createdAt"), Ascii("updatedAt"), Ascii("source"), Ascii("taskId"), Ascii("epoch")],
      [IntField(1), StrField(r.id), StrField(r.content), StrField(KindText(r.kind)), StrField(r.createdAt), StrField(r.updatedAt),
       StrField(r.source), StrField(r.taskId), IntField(r.epoch)])
  {
    hide IsObject, Stringify;
    var names := [Ascii("v"), Ascii("id"), Ascii("content"), Ascii("kind"), Ascii("createdAt"), Ascii("updatedAt"), Ascii("source"), Ascii("taskId"), Ascii("epoch")];
    var values := [IntField(1), StrField(r.id), StrField(r.content), StrField(KindText(r.kind)), StrField(r.createdAt), StrField(r.updatedAt),
       StrField(r.source), StrField(r.taskId), IntField(r.epoch)];
    StringifyReads(RecordFields(r), names, values);
  }

  ghost predicate IsState(t: Str, epoch: nat) {
    IsObject(t, [Ascii("schemaVersion"), Ascii("epoch")], [IntField(1), IntField(epoch)])
  }

  /** The state file: its version, the epoch and a newline. */
  lemma StateFormat(epoch: nat) returns (body: Str)
    ensures IsState(body, epoch) && StatePayload(epoch) == body + [0x0A]
  {
    hide IsObject, Stringify;
    var fs := [Field(Ascii("schemaVersion"), IntField(1)), Field(Ascii("epoch"), IntField(epoch))];
    StringifyReads(fs, [Ascii("schemaVersion"), Ascii("epoch")], [IntField(1), IntField(epoch)]);
    body := Stringify(fs);
  }
}
