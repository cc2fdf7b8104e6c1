/**
 * The durable audit file of src/persistence/audit-store.ts: one stringified event per line, each
 * event carrying the hash of the one before it.
 *
 * A file is its decoded text. SHA-256, JSON.parse with the event schema, secret redaction and the
 * timestamp shape come in through `Env`; `EnvOk` states the facts about them that are used.
 */
module AuditStore {
  import opened Text
  import opened JsonText
  import opened JsonStringify
  import opened Kernel

  const MAX_FILE_BYTES: nat := 5 * 1024 * 1024
  const MAX_EVENT_BYTES: nat := 4096
  const MAX_DETAIL_UNITS: nat := 2048
  const MAX_TYPE_UNITS: nat := 128
  const GENESIS: Str := Ascii("GENESIS")

  /** An event without its hash; the format version is 1 throughout. */
  datatype Body = Body(number: nat, ts: Str, epoch: SafeInteger, kind: Str, detail: Str, sleep: Sleep, prevHash: Str)
  datatype Event = Event(body: Body, hash: Str)

  datatype ParsedLine = NotJson | NotAnEvent | IsEvent(event: Event)

  datatype Env = Env(
    sha256: Str -> Str,
    parseLine: Str -> ParsedLine,
    redact: Str -> Str,
    isTimestamp: Str -> bool)

  // ---- encoding ----

  function SleepName(s: Sleep): Str { if s.SLEEP? then Ascii("SLEEP") else Ascii("AWAKE") }

  function BodyFields(b: Body): (fs: seq<Field>)
    ensures |fs| == 8
  {
    [Field(Ascii("v"), IntField(1)),
     Field(Ascii("seq"), IntField(b.number)),
     Field(Ascii("ts"), StrField(b.ts)),
     Field(Ascii("epoch"), IntField(b.epoch)),
     Field(Ascii("type"), StrField(b.kind)),
     Field(Ascii("detail"), StrField(b.detail)),
     Field(Ascii("sleep"), StrField(SleepName(b.sleep))),
     Field(Ascii("prevHash"), StrField(b.prevHash))]
  }

  /** The text the hash commits to. */
  function CanonicalBytes(b: Body): Str { Stringify(BodyFields(b)) }

  /** The text of an event on its line. */
  function Line(e: Event): Str { Stringify(BodyFields(e.body) + [Field(Ascii("hash"), StrField(e.hash))]) }

  function HashFor(env: Env, b: Body): Str { env.sha256(CanonicalBytes(b)) }

  lemma CanonicalBytesInjective(a: Body, b: Body)
    requires CanonicalBytes(a) == CanonicalBytes(b)
    ensures a == b
  {
    StringifyInjective(BodyFields(a), BodyFields(b));
    var fs, gs := BodyFields(a), BodyFields(b);
    assert fs[1] == gs[1] && fs[2] == gs[2] && fs[3] == gs[3] && fs[4] == gs[4];
    assert fs[5] == gs[5] && fs[6] == gs[6] && fs[7] == gs[7];
    assert SleepName(a.sleep)[0] == SleepName(b.sleep)[0];
  }

  /** What the event schema demands. */
  predicate SchemaValid(env: Env, e: Event) {
    && e.body.number >= 1 && e.body.epoch >= 1
    && env.isTimestamp(e.body.ts)
    && 1 <= |e.body.kind| <= MAX_TYPE_UNITS
    && |e.body.detail| <= MAX_DETAIL_UNITS
    && e.body.prevHash != [] && e.hash != []
  }

  /**
   * SHA-256 gives 64 hexadecimal digits. JSON.parse accepts only JSON texts, the schema only
   * objects, and parsing undoes stringifying as long as the numbers are safe integers.
   */
  ghost predicate EnvOk(env: Env) {
    && (forall t :: |env.sha256(t)| == 64)
    && (forall t :: env.parseLine(t).IsEvent? ==> IsObjectText(t) && SchemaValid(env, env.parseLine(t).event))
    && (forall e :: SchemaValid(env, e) && e.body.number <= MAX_SAFE_INTEGER ==> env.parseLine(Line(e)) == IsEvent(e))
  }

  ghost predicate IsObjectText(t: Str) {
    exists d: Document :: WfDocument(d) && d.value.Obj? && PrintDocument(d) == t
  }

  // ---- lines ----

  /** Every line followed by its newline. */
  function Joined(ls: seq<Str>): Str {
    if ls == [] then [] else ls[0] + [NEWLINE] + Joined(ls[1..])
  }

  predicate EndsLine(raw: Str) { raw == [] || raw[|raw| - 1] == NEWLINE }

  /** The records of a file: a trailing newline closes the last one. */
  function Records(raw: Str): seq<Str> {
    var ls := Split(raw, NEWLINE);
    if EndsLine(raw) then ls[..|ls| - 1] else ls
  }

  predicate OneLineEach(ls: seq<Str>) { forall i | 0 <= i < |ls| :: OneLine(ls[i]) }

  lemma {:induction false} SplitJoined(ls: seq<Str>, t: Str)
    requires OneLineEach(ls) && OneLine(t)
    ensures Split(Joined(ls) + t, NEWLINE) == ls + [t]
  {
    if ls == [] {
      assert Joined(ls) + t == t;
      SplitNone(t, NEWLINE);
    } else {
      assert Joined(ls) + t == ls[0] + [NEWLINE] + (Joined(ls[1..]) + t);
      SplitNone(ls[0], NEWLINE);
      SplitConcat(ls[0], NEWLINE, Joined(ls[1..]) + t);
      SplitJoined(ls[1..], t);
    }
  }

  lemma {:induction false} JoinedEnds(ls: seq<Str>)
    ensures EndsLine(Joined(ls))
  {
    if |ls| > 1 {
      JoinedEnds(ls[1..]);
    }
  }

  lemma RecordsOf(ls: seq<Str>, t: Str)
    requires OneLineEach(ls) && OneLine(t)
    ensures Records(Joined(ls) + t) == if t == [] then ls else ls + [t]
    ensures EndsLine(Joined(ls) + t) <==> t == []
  {
    SplitJoined(ls, t);
    JoinedEnds(ls);
    if t == [] {
      assert Joined(ls) + t == Joined(ls);
    } else {
      assert (Joined(ls) + t)[|Joined(ls) + t| - 1] == t[|t| - 1];
    }
  }

  lemma {:induction false} JoinedIsJoin(ls: seq<Str>)
    requires ls != []
    ensures Joined(ls) == Join(ls, NEWLINE) + [NEWLINE]
  {
    if |ls| > 1 {
      JoinedIsJoin(ls[1..]);
    }
  }

  /** A file that ends a line is exactly its records. */
  lemma JoinRecords(raw: Str)
    requires EndsLine(raw)
    ensures OneLineEach(Records(raw)) && raw == Joined(Records(raw))
  {
    if raw != [] {
      var text := raw[..|raw| - 1];
      assert raw == text + [NEWLINE] + [];
      SplitConcat(text, NEWLINE, []);
      assert Records(raw) == Split(text, NEWLINE);
      SplitParts(text, NEWLINE);
      JoinSplit(text, NEWLINE);
      JoinedIsJoin(Split(text, NEWLINE));
    }
  }

  lemma {:induction false} JoinedConcat(ls: seq<Str>, ms: seq<Str>)
    ensures Joined(ls + ms) == Joined(ls) + Joined(ms)
  {
    if ls == [] {
      assert ls + ms == ms;
    } else {
      assert (ls + ms)[1..] == ls[1..] + ms;
      JoinedConcat(ls[1..], ms);
    }
  }

  // ---- verification ----

  datatype Defect =
    | PartialRecord(line: nat)
    | EmptyLine(line: nat)
    | MalformedJson(line: nat)
    | SchemaInvalid(line: nat)
    | Discontinuity(line: nat)
    | BrokenChain(line: nat)
    | BrokenHash(line: nat)

  datatype Verification = Verification(events: seq<Event>, errors: seq<Defect>) {
    predicate Ok() { errors == [] }
  }

  /** The last hash of a chain, GENESIS before the first event. */
  function LastHash(events: seq<Event>): Str {
    if events == [] then GENESIS else events[|events| - 1].hash
  }

  function Note(errors: seq<Defect>, wrong: bool, defect: Defect): seq<Defect> {
    if wrong then errors + [defect] else errors
  }

  /** The sequence number the next event has to carry. */
  function NextNumber(events: seq<Event>): nat {
    if events == [] then 1 else events[|events| - 1].body.number + 1
  }

  /** One record is looked at; `found` is what the records before it gave. */
  function CheckRecord(env: Env, found: Verification, record: Str, lineNo: nat): Verification {
    if record == [] then found.(errors := found.errors + [EmptyLine(lineNo)])
    else match env.parseLine(record)
      case NotJson => found.(errors := found.errors + [MalformedJson(lineNo)])
      case NotAnEvent => found.(errors := found.errors + [SchemaInvalid(lineNo)])
      case IsEvent(e) =>
        Verification(found.events + [e],
          Note(Note(Note(found.errors,
            e.body.number != NextNumber(found.events), Discontinuity(lineNo)),
            e.body.prevHash != LastHash(found.events), BrokenChain(lineNo)),
            HashFor(env, e.body) != e.hash, BrokenHash(lineNo)))
  }

  function CheckRecords(env: Env, found: Verification, records: seq<Str>): Verification {
    if records == [] then found
    else
      var n := |records| - 1;
      CheckRecord(env, CheckRecords(env, found, records[..n]), records[n], n + 1)
  }

  lemma CheckNone(env: Env, found: Verification)
    ensures CheckRecords(env, found, []) == found
  {
  }

  lemma CheckNext(env: Env, found: Verification, records: seq<Str>, n: nat)
    requires n < |records|
    ensures CheckRecords(env, found, records[..n + 1])
         == CheckRecord(env, CheckRecords(env, found, records[..n]), records[n], n + 1)
  {
    assert records[..n + 1][..n] == records[..n];
  }

  function Verify(env: Env, raw: Str): Verification {
    var records := Records(raw);
    CheckRecords(env, Verification([], if EndsLine(raw) then [] else [PartialRecord(|records|)]), records)
  }

  /** The verifier's loop, with the variables the program keeps. */
  method VerifyAuditContent(env: Env, raw: Str) returns (v: Verification)
    ensures v == Verify(env, raw)
  {
    hide HashFor, Split, CheckRecords;
    var events: seq<Event>, errors: seq<Defect> := [], [];
    var records := Records(raw);
    if !EndsLine(raw) {
      errors := errors + [PartialRecord(|records|)];
    }
    ghost var start := Verification([], errors);
    assert errors == if EndsLine(raw) then [] else [PartialRecord(|records|)];
    CheckNone(env, start);
    var expectedPrev := GENESIS;
    var expectedSeq := 1;
    for index := 0 to |records|
      invariant Verification(events, errors) == CheckRecords(env, start, records[..index])
      invariant expectedPrev == LastHash(events)
      invariant expectedSeq == NextNumber(events)
    {
      ghost var before := Verification(events, errors);
      CheckNext(env, start, records, index);
      var lineNo := index + 1;
      var record := records[index];
      if record == [] {
        errors := errors + [EmptyLine(lineNo)];
        continue;
      }
      match env.parseLine(record) {
        case NotJson => errors := errors + [MalformedJson(lineNo)];
        case NotAnEvent => errors := errors + [SchemaInvalid(lineNo)];
        case IsEvent(event) =>
          if event.body.number != expectedSeq {
            errors := errors + [Discontinuity(lineNo)];
          }
          if event.body.prevHash != expectedPrev {
            errors := errors + [BrokenChain(lineNo)];
          }
          if HashFor(env, event.body) != event.hash {
            errors := errors + [BrokenHash(lineNo)];
          }
          expectedPrev := event.hash;
          expectedSeq := event.body.number + 1;
          events := events + [event];
          assert Verification(events, errors) == CheckRecord(env, before, record, lineNo);
      }
    }
    assert records[..|records|] == records;
    v := Verification(events, errors);
  }

  // ---- what a clean verification means ----

  /** Event `i` of a hash chain: numbered from 1, naming the hash of the one before and sealed by its own. */
  predicate Linked(env: Env, events: seq<Event>, i: nat)
    requires i < |events|
  {
    && events[i].body.number == i + 1
    && events[i].body.prevHash == (if i == 0 then GENESIS else events[i - 1].hash)
    && events[i].hash == HashFor(env, events[i].body)
  }

  predicate Chained(env: Env, events: seq<Event>) { forall i | 0 <= i < |events| :: Linked(env, events, i) }

  predicate ParseTo(env: Env, records: seq<Str>, events: seq<Event>) {
    && |records| == |events|
    && forall i | 0 <= i < |records| :: records[i] != [] && env.parseLine(records[i]) == IsEvent(events[i])
  }

  /** Errors are never taken back. */
  lemma {:induction false} ErrorsStay(env: Env, found: Verification, records: seq<Str>)
    requires !found.Ok()
    ensures !CheckRecords(env, found, records).Ok()
  {
    if records == [] {
    } else {
      ErrorsStay(env, found, records[..|records| - 1]);
    }
  }

  lemma ChainGrows(env: Env, events: seq<Event>, e: Event)
    ensures Chained(env, events + [e]) <==>
      && Chained(env, events)
      && e.body.number == |events| + 1 && e.body.prevHash == LastHash(events) && e.hash == HashFor(env, e.body)
  {
    var all := events + [e];
    forall i | 0 <= i < |events| ensures Linked(env, all, i) == Linked(env, events, i) {
    }
    if Chained(env, all) {
      assert Linked(env, all, |events|);
    }
  }

  lemma ParseGrows(env: Env, records: seq<Str>, record: Str, events: seq<Event>, e: Event)
    requires |records| == |events|
    ensures ParseTo(env, records + [record], events + [e]) <==>
      ParseTo(env, records, events) && record != [] && env.parseLine(record) == IsEvent(e)
  {
    var rs, es := records + [record], events + [e];
    if ParseTo(env, rs, es) {
      assert rs[|records|] == record;
      forall i | 0 <= i < |records| ensures records[i] != [] && env.parseLine(records[i]) == IsEvent(events[i]) {
        assert rs[i] == records[i];
      }
    }
  }

  /** A record without a defect holds the next event of the chain. */
  lemma CleanRecord(env: Env, found: Verification, record: Str, lineNo: nat)
    requires found.events != [] ==> found.events[|found.events| - 1].body.number == |found.events|
    ensures var v := CheckRecord(env, found, record, lineNo);
            v.Ok() ==>
              && found.Ok() && record != [] && env.parseLine(record).IsEvent?
              && var e := env.parseLine(record).event;
                 && e.body.number == |found.events| + 1 && e.body.prevHash == LastHash(found.events) && e.hash == HashFor(env, e.body)
                 && v == Verification(found.events + [e], [])
  {
    hide HashFor;
  }

  /** A chain is numbered by its length. */
  lemma ChainNumbers(env: Env, events: seq<Event>)
    requires Chained(env, events)
    ensures events != [] ==> events[|events| - 1].body.number == |events|
  {
    if events == [] {
    } else {
      assert Linked(env, events, |events| - 1);
    }
  }

  lemma {:induction false} CleanRecords(env: Env, records: seq<Str>)
    ensures var v := CheckRecords(env, Verification([], []), records);
            v.Ok() ==> ParseTo(env, records, v.events) && Chained(env, v.events)
  {
    hide HashFor, CheckRecord, Linked, Chained, ParseTo;
    if records == [] {
      NothingChained(env);
    } else {
      var n := |records| - 1;
      CleanRecords(env, records[..n]);
      var before := CheckRecords(env, Verification([], []), records[..n]);
      if CheckRecords(env, Verification([], []), records).Ok() {
        if !before.Ok() {
          CheckOne(env, before, records[n], n + 1);
        }
        ChainNumbers(env, before.events);
        CleanRecord(env, before, records[n], n + 1);
        var e := env.parseLine(records[n]).event;
        ChainGrows(env, before.events, e);
        ParseLength(env, records[..n], before.events);
        ParseGrows(env, records[..n], records[n], before.events, e);
        assert records == records[..n] + [records[n]];
      }
    }
  }

  lemma NothingChained(env: Env)
    ensures Chained(env, []) && ParseTo(env, [], [])
  {
  }

  lemma ParseLength(env: Env, records: seq<Str>, events: seq<Event>)
    requires ParseTo(env, records, events)
    ensures |records| == |events|
  {
  }

  /** A defect found before a record is still there behind it. */
  lemma CheckOne(env: Env, found: Verification, record: Str, lineNo: nat)
    requires !found.Ok()
    ensures !CheckRecord(env, found, record, lineNo).Ok()
  {
    hide HashFor;
  }

  lemma {:induction false} CleanIfChained(env: Env, records: seq<Str>, events: seq<Event>)
    requires ParseTo(env, records, events) && Chained(env, events)
    ensures CheckRecords(env, Verification([], []), records) == Verification(events, [])
  {
    hide HashFor, CheckRecord, Linked, Chained;
    if records == [] {
    } else {
      var n := |records| - 1;
      var rs, es, e := records[..n], events[..n], events[n];
      assert records == rs + [records[n]] && events == es + [e];
      ChainGrows(env, es, e);
      ParseGrows(env, rs, records[n], es, e);
      CleanIfChained(env, rs, es);
      ChainNumbers(env, es);
      NextRecord(env, Verification(es, []), records[n], n + 1, e);
    }
  }

  lemma NextRecord(env: Env, found: Verification, record: Str, lineNo: nat, e: Event)
    requires found.Ok() && record != [] && env.parseLine(record) == IsEvent(e)
    requires found.events != [] ==> found.events[|found.events| - 1].body.number == |found.events|
    requires e.body.number == |found.events| + 1 && e.body.prevHash == LastHash(found.events) && e.hash == HashFor(env, e.body)
    ensures CheckRecord(env, found, record, lineNo) == Verification(found.events + [e], [])
  {
    hide HashFor;
  }

  /** The verifier finds nothing wrong exactly on files of whole lines whose events form a chain. */
  lemma VerifyMeaning(env: Env, raw: Str, events: seq<Event>)
    ensures Verify(env, raw) == Verification(events, [])
       <==> EndsLine(raw) && ParseTo(env, Records(raw), events) && Chained(env, events)
  {
    CleanRecords(env, Records(raw));
    if ParseTo(env, Records(raw), events) && Chained(env, events) {
      CleanIfChained(env, Records(raw), events);
    }
    if !EndsLine(raw) {
      ErrorsStay(env, Verification([], [PartialRecord(|Records(raw)|)]), Records(raw));
    }
  }
}
