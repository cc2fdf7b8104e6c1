/**
 * Reopening the memory store. A write is measured in code points and bytes, the schema of the file
 * in UTF-16 units, so a write can be saved that the next opening refuses.
 */
module MemoryPersistence {
  import opened Text
  import opened Sequences
  import opened JsonText
  import opened JsonStringify
  import opened Kernel
  import opened Authorize
  import opened Session
  import opened Replacement
  import opened MemoryStore
  import opened MemoryService
  import opened MemoryGuarantees

  /** The fields that trusted code fills in meet the schema. */
  predicate TrustedOk(env: Env, s: SessionState, taskId: Str, io: Io) {
    1 <= |io.id| <= 64 && env.isDatetime(io.now) && 1 <= |taskId| <= 128 && s.epoch >= 1
  }

  /** Behind the gates: this write is going to be saved, and its content is beyond the bound of the file's schema. */
  predicate SavesTooLong(tools: Tools, s: SessionState, st: State, taskId: Str, p: Proposal, io: Io) {
    && p.WriteProposal? && |p.content| > MAX_STORED_UNITS
    && !tools.secretLike(p.content) && io.started && io.save.Smooth?
    && BoundBroken(st.records + [NewRecord(p.content, p.kind, taskId, s.epoch, io)]).None?
  }

  /** The call passes every gate with such a write. */
  predicate StoresTooLong(policy: Policy, tools: Tools, s: SessionState, st: State, taskId: Str, proposal: Option<Proposal>, io: Io) {
    && s.healthy && !s.killed && s.sleep.AWAKE?
    && proposal.Some? && ProposalOk(proposal.value)
    && Decided(policy, s, taskId, proposal.value).0.Allow?
    && SavesTooLong(tools, s, st, taskId, proposal.value, io)
  }

  lemma RunReopens(env: Env, tools: Tools, s: SessionState, st: State, taskId: Str, p: Proposal, io: Io)
    requires EnvOk(env) && Agrees(env, st) && TrustedOk(env, s, taskId, io)
    ensures Agrees(env, Run(tools, s, st, taskId, p, io).2) <==> !SavesTooLong(tools, s, st, taskId, p, io)
  {
    hide Answer, ContractOk, FirstWith, WithoutRecord, Agrees, DiskAfter, BoundBroken;
    match p
    case ReadProposal(_, _) =>
    case WriteProposal(content, kind) =>
      var r := NewRecord(content, kind, taskId, s.epoch, io);
      OldRecordsOk(env, st);
      assert AllSchemaOk(env, st.records + [r]) <==> SchemaOk(env, r) by {
        assert forall x :: x in st.records + [r] <==> x in st.records || x == r;
      }
      SaveIsAtomic(env, st, st.records + [r], io.save);
    case DeleteProposal(id) =>
      OldRecordsOk(env, st);
      WithoutMembers(st.records, id);
      SaveIsAtomic(env, st, WithoutRecord(st.records, id), io.save);
  }

  lemma OldRecordsOk(env: Env, st: State)
    requires Agrees(env, st)
    ensures AllSchemaOk(env, st.records)
  {
  }

  /**
   * After any call the file reopens to the records in memory, exactly unless a write of an
   * overlong content passes every gate: the condition can be checked before the call.
   */
  lemma CallReopens(policy: Policy, env: Env, tools: Tools, s: SessionState, st: State, taskId: Str,
                    proposal: Option<Proposal>, io: Io)
    requires EnvOk(env) && Agrees(env, st) && TrustedOk(env, s, taskId, io)
    ensures Agrees(env, Handle(policy, tools, s, st, 0, taskId, proposal, io).2) <==>
              !StoresTooLong(policy, tools, s, st, taskId, proposal, io)
  {
    hide Decided, ProposalOk, Run, Agrees, EnvOk, SavesTooLong;
    if proposal.Some? {
      var (_, kind) := Decided(policy, s, taskId, proposal.value);
      var s1 := Persist(s.(log := AppendEvent(s.log, kind, s.sleep)), Logged(kind), io.auth);
      RunReopens(env, tools, s1, st, taskId, proposal.value, io);
      SameSave(tools, s, s1, st, taskId, proposal.value, io);
    }
  }

  lemma SameSave(tools: Tools, s: SessionState, t: SessionState, st: State, taskId: Str, p: Proposal, io: Io)
    requires s.epoch == t.epoch
    ensures SavesTooLong(tools, s, st, taskId, p, io) == SavesTooLong(tools, t, st, taskId, p, io)
  {
    hide BoundBroken, NewRecord;
  }

  /** As long as no write exceeds the schema's bound, the store reopens after any run. */
  lemma {:induction false} RunsReopen(policy: Policy, env: Env, tools: Tools, s: SessionState, st: State, calls: seq<Call>)
    requires EnvOk(env) && Agrees(env, st)
    requires forall i | 0 <= i < |calls| :: TrustedOk(env, s, calls[i].taskId, calls[i].io)
    requires forall i | 0 <= i < |calls| ::
               calls[i].proposal.Some? && calls[i].proposal.value.WriteProposal? ==> |calls[i].proposal.value.content| <= MAX_STORED_UNITS
    ensures var (t, su) := RunCalls(policy, tools, s, st, calls);
            Agrees(env, su) && t.epoch == s.epoch
  {
    hide Handle, Agrees, EnvOk;
    if calls == [] {
    } else {
      var n := |calls| - 1;
      RunsReopen(policy, env, tools, s, st, calls[..n]);
      var (s1, st1) := RunCalls(policy, tools, s, st, calls[..n]);
      CallReopens(policy, env, tools, s1, st1, calls[n].taskId, calls[n].proposal, calls[n].io);
      StandingKept(policy, tools, s1, st1, calls[n].taskId, calls[n].proposal, calls[n].io);
    }
  }

  /** On records within the schema, a read never trips over its own result contract. */
  lemma ReadMeetsContract(env: Env, tools: Tools, rs: seq<Record>, taskId: Str, query: Str, maxResults: nat)
    requires AllSchemaOk(env, rs) && maxResults <= MAX_RESULTS
    ensures ContractOk(Answer(tools, rs, taskId, query, maxResults).0)
  {
    hide Matched, Owned, Includes, ViewBytes, Shrunk;
    var needle := tools.normalize(query);
    var matched := Matched(tools, Owned(rs, taskId), needle);
    var views := ToViews(Take(matched, maxResults));
    MatchedMeans(tools, Owned(rs, taskId), needle);
    OwnedOwns(rs, taskId);
    ToViewsAt(Take(matched, maxResults));
    forall v | v in Shrunk(views) ensures |v.id| <= 64 && |v.content| <= MAX_STORED_UNITS && |v.taskId| <= 128 {
      var i :| 0 <= i < |Shrunk(views)| && Shrunk(views)[i] == v;
      assert views[i] == v && v == ToView(matched[i]);
      assert matched[i] in matched;
      assert SchemaOk(env, matched[i]);
    }
  }

  // ---- the write that locks the store ----

  /** Text that is written into a JSON string as it is. */
  predicate Plain(s: Str) {
    s == []
    || (if |s| >= 2 && IsHighSurrogate(s[0]) && IsLowSurrogate(s[1]) then Plain(s[2..])
        else s[0] >= 0x20 && s[0] != QUOTE && s[0] != BACKSLASH && !(0xD800 <= s[0] < 0xE000) && Plain(s[1..]))
  }

  lemma PairPieces(u: CodeUnit, w: CodeUnit, ps: seq<Piece>, rest: Str)
    ensures PrintPieces([Raw(u), Raw(w)] + ps, rest) == [u] + ([w] + PrintPieces(ps, rest))
  {
    var all := [Raw(u), Raw(w)] + ps;
    assert all[1..] == [Raw(w)] + ps && ([Raw(w)] + ps)[1..] == ps;
  }

  lemma {:induction false} PlainPieces(s: Str, rest: Str)
    requires Plain(s)
    ensures PrintPieces(Quote(s), rest) == s + rest
    decreases |s|
  {
    hide Quote, PrintPieces, Plain;
    PlainQuote(s, rest);
    if s == [] {
      assert s + rest == rest;
    } else {
      var k := FirstPoint(s);
      PlainPieces(s[k..], rest);
      Assoc(s[..k], s[k..], rest);
      assert s[..k] + s[k..] == s;
    }
  }

  function FirstPoint(s: Str): (k: nat)
    requires s != []
    ensures 1 <= k <= |s|
  {
    if |s| >= 2 && IsHighSurrogate(s[0]) && IsLowSurrogate(s[1]) then 2 else 1
  }

  /** The quoted form of a plain text begins with its first code point as it is. */
  lemma PlainQuote(s: Str, rest: Str)
    requires Plain(s)
    ensures s == [] ==> PrintPieces(Quote(s), rest) == rest
    ensures s != [] ==>
              var k := FirstPoint(s);
              Plain(s[k..]) && PrintPieces(Quote(s), rest) == s[..k] + PrintPieces(Quote(s[k..]), rest)
  {
    hide Decode, WfPiece, Spelled, DecodePiece, Spell;
    if s == [] {
    } else if FirstPoint(s) == 2 {
      var ps := Quote(s[2..]);
      assert Quote(s) == [Raw(s[0]), Raw(s[1])] + ps;
      PairPieces(s[0], s[1], ps, rest);
      assert s[..2] == [s[0]] + [s[1]];
      Assoc([s[0]], [s[1]], PrintPieces(ps, rest));
    } else {
      SpelledRaw(s[0]);
      assert Quote(s)[1..] == Quote(s[1..]);
    }
  }

  lemma SpelledRaw(u: CodeUnit)
    requires u >= 0x20 && u != QUOTE && u != BACKSLASH && !(0xD800 <= u < 0xE000)
    ensures Spell(u) == Raw(u)
  {
  }

  lemma PlainString(s: Str, rest: Str)
    requires Plain(s) && (rest == [] || rest[0] < 0x80)
    ensures Utf8Length(PrintString(Quote(s), rest)) == Utf8Length(s) + 2 + Utf8Length(rest)
  {
    hide PrintPieces, Quote, Plain;
    PlainPieces(s, [QUOTE] + rest);
    assert ([QUOTE] + rest)[1..] == rest;
    Utf8LengthConcat(s, [QUOTE] + rest);
    var t := s + ([QUOTE] + rest);
    assert ([QUOTE] + t)[1..] == t;
  }

  function FieldBytes(f: Field): nat {
    Utf8Length(f.name) + 3 + match f.value case IntField(n) => |Digits(n)| case StrField(s) => Utf8Length(s) + 2
  }

  predicate PlainField(f: Field) { Plain(f.name) && (f.value.StrField? ==> Plain(f.value.text)) }

  function AllFieldBytes(fs: seq<Field>): nat {
    if fs == [] then 0 else FieldBytes(fs[0]) + (if |fs| == 1 then 0 else 1) + AllFieldBytes(fs[1..])
  }

  lemma ValueBytes(v: FieldValue, rest: Str)
    requires (v.StrField? ==> Plain(v.text)) && rest != [] && rest[0] < 0x80
    ensures Utf8Length(Print(ToValue(v), rest))
         == (match v case IntField(n) => |Digits(n)| case StrField(s) => Utf8Length(s) + 2) + Utf8Length(rest)
    ensures Print(ToValue(v), rest) != []
  {
    hide Plain, Quote, Digits;
    match v
    case IntField(n) =>
      assert PrintNumber(Number(false, Digits(n), [], NoExponent)) == Digits(n);
      AsciiSize(Digits(n));
      Utf8LengthConcat(Digits(n), rest);
    case StrField(s) => PlainString(s, rest);
  }

  lemma {:induction false} MembersBytes(fs: seq<Field>, rest: Str)
    requires fs != [] && (forall i | 0 <= i < |fs| :: PlainField(fs[i])) && rest != [] && rest[0] < 0x80
    ensures Utf8Length(PrintMembers(ToMembers(fs), rest)) == AllFieldBytes(fs) + Utf8Length(rest)
    decreases |fs|
  {
    hide ToMembers, PrintMembers, PrintString, Print, ToValue, Quote, Plain;
    var next := if fs[1..] == [] then rest else [COMMA] + PrintMembers(ToMembers(fs[1..]), rest);
    PrintFirst(fs, rest);
    if fs[1..] != [] {
      MembersBytes(fs[1..], rest);
      assert next[1..] == PrintMembers(ToMembers(fs[1..]), rest);
    } else {
      assert AllFieldBytes(fs[1..]) == 0;
    }
    var v := Print(ToValue(fs[0].value), next);
    ValueBytes(fs[0].value, next);
    assert ([COLON] + v)[1..] == v;
    PlainString(fs[0].name, [COLON] + v);
  }

  lemma StringifyIsMembers(fs: seq<Field>)
    requires fs != []
    ensures Stringify(fs) == [LBRACE] + PrintMembers(ToMembers(fs), [RBRACE] + [])
  {
    hide PrintMembers;
  }

  lemma StringifyBytes(fs: seq<Field>)
    requires fs != [] && forall i | 0 <= i < |fs| :: PlainField(fs[i])
    ensures Utf8Length(Stringify(fs)) == AllFieldBytes(fs) + 2
  {
    hide Stringify, ToMembers, PrintMembers, PlainField, AllFieldBytes;
    var close: Str := [RBRACE] + [];
    var t := PrintMembers(ToMembers(fs), close);
    StringifyIsMembers(fs);
    assert ([LBRACE] + t)[1..] == t;
    MembersBytes(fs, close);
    assert close[1..] == [];
  }

  lemma {:induction false} PlainAscii(s: Str)
    requires forall i | 0 <= i < |s| :: 0x30 <= s[i] < 0x5B || 0x61 <= s[i] < 0x7F || s[i] == 0x2D || s[i] == DOT
    ensures Plain(s) && Utf8Length(s) == |s|
  {
    if s == [] {
    } else {
      assert !IsHighSurrogate(s[0]);
      PlainAscii(s[1..]);
    }
  }

  /** An id, a time or a task name as trusted code writes them. */
  predicate TrustedText(s: Str) {
    |s| <= 64 && forall i | 0 <= i < |s| :: 0x30 <= s[i] < 0x5B || 0x61 <= s[i] < 0x7F || s[i] == 0x2D || s[i] == DOT
  }

  predicate TrustedFields(r: Record) {
    TrustedText(r.id) && TrustedText(r.createdAt) && TrustedText(r.updatedAt) && TrustedText(r.source) && TrustedText(r.taskId)
    && r.epoch < 1000000
  }

  lemma {:induction false} DigitsLength(n: nat, k: nat, bound: nat)
    requires k >= 1 && n < bound && Power10(k) == bound
    ensures |Digits(n)| <= k
    decreases k
  {
    if n >= 10 {
      assert k > 1;
      DigitsLength(n / 10, k - 1, Power10(k - 1));
    }
  }

  function Power10(k: nat): nat { if k == 0 then 1 else 10 * Power10(k - 1) }

  lemma TextField(name: Str, s: Str)
    requires Plain(s) && TrustedText(name) && |name| <= 10
    ensures PlainField(Field(name, StrField(s))) && FieldBytes(Field(name, StrField(s))) <= Utf8Length(s) + 15
  {
    hide Plain, Utf8Length;
    PlainAscii(name);
  }

  lemma NumberField(name: Str, n: nat)
    requires n < 1000000 && TrustedText(name) && |name| <= 10
    ensures PlainField(Field(name, IntField(n))) && FieldBytes(Field(name, IntField(n))) <= 19
  {
    hide Plain, Utf8Length, Digits;
    PlainAscii(name);
    assert Power10(6) == 1000000 by {
      assert Power10(3) == 1000;
    }
    DigitsLength(n, 6, 1000000);
  }

  lemma NamesTrusted(r: Record)
    ensures forall i | 0 <= i < 9 :: TrustedText(RecordFields(r)[i].name) && |RecordFields(r)[i].name| <= 10
  {
    hide Plain, Stringify, Utf8Length, KindName;
  }

  lemma KindTrusted(k: MemoryKind)
    ensures TrustedText(KindName(k))
  {
    hide Plain, Utf8Length;
  }

  lemma TrustedSize(s: Str)
    requires TrustedText(s)
    ensures Plain(s) && Utf8Length(s) <= 64
  {
    hide Plain, Utf8Length;
    PlainAscii(s);
  }

  lemma RecordParts(r: Record)
    requires TrustedFields(r) && Plain(r.content)
    ensures forall i | 0 <= i < 9 :: PlainField(RecordFields(r)[i])
    ensures forall i | 0 <= i < 9 && i != 2 :: FieldBytes(RecordFields(r)[i]) <= 79
    ensures FieldBytes(RecordFields(r)[2]) <= Utf8Length(r.content) + 15
  {
    hide Plain, Utf8Length, Digits, Stringify, FieldBytes, PlainField, TrustedText, KindName;
    var fs := RecordFields(r);
    NamesTrusted(r);
    KindTrusted(r.kind);
    TrustedSize(r.id);
    TrustedSize(r.createdAt);
    TrustedSize(r.updatedAt);
    TrustedSize(r.source);
    TrustedSize(r.taskId);
    TrustedSize(KindName(r.kind));
    NumberField(fs[0].name, 1);
    TextField(fs[1].name, r.id);
    TextField(fs[2].name, r.content);
    TextField(fs[3].name, KindName(r.kind));
    TextField(fs[4].name, r.createdAt);
    TextField(fs[5].name, r.updatedAt);
    TextField(fs[6].name, r.source);
    TextField(fs[7].name, r.taskId);
    NumberField(fs[8].name, r.epoch);
  }

  /** The overhead of a record around a plain content is below 700 bytes. */
  lemma RecordOverhead(r: Record)
    requires TrustedFields(r) && Plain(r.content)
    ensures RecordBytes(r) <= Utf8Length(r.content) + 700
  {
    hide Plain, Utf8Length, Stringify, FieldBytes, PlainField, TrustedFields, RecordFields;
    RecordParts(r);
    StringifyBytes(RecordFields(r));
    NineFields(RecordFields(r));
  }

  lemma NineFields(fs: seq<Field>)
    requires |fs| == 9
    ensures AllFieldBytes(fs) == FieldBytes(fs[0]) + FieldBytes(fs[1]) + FieldBytes(fs[2]) + FieldBytes(fs[3]) + FieldBytes(fs[4])
                                 + FieldBytes(fs[5]) + FieldBytes(fs[6]) + FieldBytes(fs[7]) + FieldBytes(fs[8]) + 8
  {
    hide FieldBytes;
    FourFields(fs);
    FourFields(fs[4..]);
    assert fs[4..][4..] == fs[8..] && |fs[8..]| == 1 && fs[8..][1..] == [];
  }

  lemma FourFields(fs: seq<Field>)
    requires |fs| > 4
    ensures AllFieldBytes(fs) == FieldBytes(fs[0]) + FieldBytes(fs[1]) + FieldBytes(fs[2]) + FieldBytes(fs[3]) + 4 + AllFieldBytes(fs[4..])
  {
    hide FieldBytes, AllFieldBytes;
    OneField(fs);
    OneField(fs[1..]);
    OneField(fs[2..]);
    OneField(fs[3..]);
    assert fs[1..][1..] == fs[2..] && fs[2..][1..] == fs[3..] && fs[3..][1..] == fs[4..];
  }

  lemma OneField(fs: seq<Field>)
    requires fs != []
    ensures AllFieldBytes(fs) == FieldBytes(fs[0]) + (if |fs| == 1 then 0 else 1) + AllFieldBytes(fs[1..])
  {
  }

  /** Some characters outside the basic plane, then letters. */
  function LongText(faces: nat, letters: nat): Str
    decreases faces, letters
  {
    if faces > 0 then [0xD83D, 0xDE00] + LongText(faces - 1, letters)
    else if letters > 0 then [0x61] + LongText(0, letters - 1)
    else []
  }

  lemma {:induction false} LongTextSize(faces: nat, letters: nat)
    ensures var s := LongText(faces, letters);
            && Plain(s) && |s| == 2 * faces + letters && CodePoints(s) == faces + letters && Utf8Length(s) == 4 * faces + letters
            && forall i | 0 <= i < |s| :: s[i] >= 0x20 && s[i] != 0x7F
    decreases faces, letters
  {
    var s := LongText(faces, letters);
    if faces > 0 {
      LongTextSize(faces - 1, letters);
      assert s[2..] == LongText(faces - 1, letters);
    } else if letters > 0 {
      LongTextSize(0, letters - 1);
      assert s[1..] == LongText(0, letters - 1);
    }
  }

  /**
   * A concrete write that locks the store: 4096 code points, 4129 units. The proposal is accepted
   * and the save succeeds, but the file no longer opens.
   */
  lemma LongWriteLocksStore(env: Env, s: SessionState, disk: Disk, taskId: Str, kind: MemoryKind, io: Io)
    requires EnvOk(env) && Open(env, disk.main) == Opened([]) && io.save == Smooth
    requires var r := NewRecord(LongText(33, 4063), kind, taskId, s.epoch, io); TrustedFields(r)
    ensures ProposalOk(WriteProposal(LongText(33, 4063), kind))
    ensures var r := NewRecord(LongText(33, 4063), kind, taskId, s.epoch, io);
            var (saved, st) := Save(State([], disk), [r], io.save);
            saved == Saved && st.records == [r] && Open(env, st.disk.main) == NotOpened(SchemaFailed)
  {
    hide LongText, Plain, Utf8Length, CodePoints, RecordBytes, Open, Payload, AllFields;
    LongTextSize(33, 4063);
    var r := NewRecord(LongText(33, 4063), kind, taskId, s.epoch, io);
    RecordOverhead(r);
    PayloadSize([r]);
    assert [r][1..] == [];
    assert |HEAD| == 18;
    PayloadOpens(env, [r]);
    assert r in [r] && !SchemaOk(env, r);
  }
}
