/** What the audit file promises: refinement of a list, crash recovery and tamper evidence. */
module AuditGuarantees {
  import opened Text
  import opened JsonText
  import opened JsonStringify
  import opened DuplicateKeysCorrect
  import opened Kernel
  import opened AuditStore
  import opened AuditSink

  /** The file holds exactly these events, cleanly. */
  predicate Holds(env: Env, file: Option<Str>, events: seq<Event>) {
    Verify(env, Content(file)) == Verification(events, [])
  }

  /** A sink in agreement with its file: opening the file again would give the same cursor. */
  predicate Agrees(env: Env, s: State, events: seq<Event>) {
    Holds(env, s.file, events) && s.cursor == CursorAfter(events)
  }

  lemma OpenedAgrees(env: Env, file: Option<Str>)
    requires Open(env, file).Opened?
    ensures Agrees(env, State(file, Open(env, file).cursor), Verify(env, Content(file)).events)
  {
    if file.None? {
      assert Records([]) == [];
      VerifyMeaning(env, [], []);
    }
  }

  lemma AgreesReopens(env: Env, s: State, events: seq<Event>)
    requires Agrees(env, s, events)
    ensures Open(env, s.file) == Opened(s.cursor)
  {
    if s.file.None? {
      VerifyMeaning(env, [], events);
      assert Records([]) == [];
    }
  }

  // ---- appending whole lines and broken lines ----

  /** The next event of a chain, ready to be written. */
  predicate Follows(env: Env, events: seq<Event>, e: Event) {
    && SchemaValid(env, e) && e.body.number <= MAX_SAFE_INTEGER
    && e.body.number == |events| + 1 && e.body.prevHash == LastHash(events)
    && e.hash == HashFor(env, e.body)
  }

  lemma LineParses(env: Env, e: Event)
    requires EnvOk(env) && SchemaValid(env, e) && e.body.number <= MAX_SAFE_INTEGER
    ensures env.parseLine(Line(e)) == IsEvent(e)
  {
  }

  lemma LineShape(e: Event)
    ensures Line(e) != [] && OneLine(Line(e))
    ensures exists d: Document :: WfDocument(d) && d.value.Obj? && d.trail == [] && PrintDocument(d) == Line(e)
  {
    var fs := BodyFields(e.body) + [Field(Ascii("hash"), StrField(e.hash))];
    StringifyOneLine(fs);
    var d := Document([], ToObject(fs), []);
    assert PrintDocument(d) == Line(e);
  }

  /** Recording a whole line adds its event. */
  lemma WholeLine(env: Env, raw: Str, events: seq<Event>, e: Event)
    requires EnvOk(env)
    requires Verify(env, raw) == Verification(events, []) && Follows(env, events, e)
    ensures Verify(env, raw + (Line(e) + [NEWLINE])) == Verification(events + [e], [])
    ensures Verify(env, raw + Line(e)) == Verification(events + [e], [PartialRecord(|events| + 1)])
  {
    hide HashFor, Line, Stringify, CheckRecords, EnvOk, Split, SchemaValid;
    VerifyMeaning(env, raw, events);
    JoinRecords(raw);
    LineShape(e);
    LineParses(env, e);
    var rs := Records(raw);
    RecordsOf(rs, Line(e));
    assert raw + (Line(e) + [NEWLINE]) == Joined(rs + [Line(e)]) + [] by {
      JoinedConcat(rs, [Line(e)]);
      assert Joined([Line(e)]) == Line(e) + [NEWLINE];
    }
    RecordsOf(rs + [Line(e)], []);
    ParseGrows(env, rs, Line(e), events, e);
    ChainGrows(env, events, e);
    VerifyMeaning(env, raw + (Line(e) + [NEWLINE]), events + [e]);
    PartialLast(env, rs, Line(e), events);
    if events != [] {
      assert Linked(env, events, |events| - 1);
    }
    PartialOutcome(env, rs, Line(e), events);
  }

  /** A last record without its newline is looked at like any other, on top of one defect. */
  lemma PartialLast(env: Env, rs: seq<Str>, torn: Str, events: seq<Event>)
    requires ParseTo(env, rs, events) && Chained(env, events) && OneLineEach(rs) && OneLine(torn) && torn != []
    ensures Verify(env, Joined(rs) + torn)
         == CheckRecord(env, Verification(events, [PartialRecord(|rs| + 1)]), torn, |rs| + 1)
  {
    hide HashFor, Line, Stringify, Split, CheckRecord;
    RecordsOf(rs, torn);
    var start := Verification([], [PartialRecord(|rs| + 1)]);
    assert (rs + [torn])[..|rs|] == rs;
    CleanIfChained(env, rs, events);
    ErrorsIndependent(env, rs, [PartialRecord(|rs| + 1)]);
    assert [PartialRecord(|rs| + 1)] + [] == [PartialRecord(|rs| + 1)];
    assert CheckRecords(env, start, rs) == Verification(events, [PartialRecord(|rs| + 1)]);
  }

  lemma PartialOutcome(env: Env, rs: seq<Str>, torn: Str, events: seq<Event>)
    requires |rs| == |events| && torn != []
    requires events != [] ==> events[|events| - 1].body.number == |events|
    ensures var v := CheckRecord(env, Verification(events, [PartialRecord(|rs| + 1)]), torn, |rs| + 1);
            match env.parseLine(torn)
            case IsEvent(e) =>
              e.body.number == |events| + 1 && e.body.prevHash == LastHash(events) && e.hash == HashFor(env, e.body) ==>
                v == Verification(events + [e], [PartialRecord(|events| + 1)])
            case _ => v.events == events && v.errors != []
  {
    hide HashFor;
  }

  /** Defects found before do not change what is found later. */
  lemma {:induction false} ErrorsIndependent(env: Env, rs: seq<Str>, errors: seq<Defect>)
    ensures var v := CheckRecords(env, Verification([], []), rs);
            CheckRecords(env, Verification([], errors), rs) == Verification(v.events, errors + v.errors)
  {
    hide HashFor;
    if rs == [] {
    } else {
      var n := |rs| - 1;
      ErrorsIndependent(env, rs[..n], errors);
      var v := CheckRecords(env, Verification([], []), rs[..n]);
      CheckRecordIndependent(env, v, errors, rs[n], n + 1);
    }
  }

  lemma CheckRecordIndependent(env: Env, v: Verification, errors: seq<Defect>, record: Str, lineNo: nat)
    ensures var w := CheckRecord(env, v, record, lineNo);
            CheckRecord(env, Verification(v.events, errors + v.errors), record, lineNo)
            == Verification(w.events, errors + w.errors)
  {
    hide HashFor;
    forall es: seq<Defect>, wrong: bool, d: Defect
      ensures Note(errors + es, wrong, d) == errors + Note(es, wrong, d)
    {
      assert errors + es + [d] == errors + (es + [d]);
    }
  }

  // ---- torn writes ----

  /** A write that broke off before the end of the record. */
  predicate Torn(line: Str, torn: Str) {
    || (torn != [] && torn < line)
    || (torn != [] && torn[|torn| - 1] == REPLACEMENT && torn[..|torn| - 1] < line)
  }

  /** The text of an object is never a proper prefix of the text of another. */
  lemma ObjectTextIsNoPrefix(d: Document, w: Document, more: Str)
    requires WfDocument(d) && WfDocument(w) && w.value.Obj? && w.trail == [] && d.value.Obj?
    requires PrintDocument(w) == PrintDocument(d) + more
    ensures more == []
  {
    PrintPrepends(d.value, d.trail, more);
    assert d.lead + Print(d.value, d.trail) + more == d.lead + (Print(d.value, d.trail) + more);
    SkipValueEnds(d.lead, d.value, d.trail + more);
    SkipValueEnds(w.lead, w.value, []);
    assert d.trail + more == [];
  }

  /** No part of a stringified event is an event. */
  lemma TornIsNoEvent(env: Env, e: Event, torn: Str)
    requires EnvOk(env) && Torn(Line(e), torn)
    ensures !env.parseLine(torn).IsEvent?
  {
    hide HashFor, Stringify, Line, Print, WfDocument, SchemaValid;
    if env.parseLine(torn).IsEvent? {
      assert IsObjectText(torn);
      var d: Document :| WfDocument(d) && d.value.Obj? && PrintDocument(d) == torn;
      ObjectTextEnds(d);
      LineShape(e);
      var w: Document :| WfDocument(w) && w.value.Obj? && w.trail == [] && PrintDocument(w) == Line(e);
      if torn < Line(e) {
        assert Line(e) == torn + Line(e)[|torn|..];
        ObjectTextIsNoPrefix(d, w, Line(e)[|torn|..]);
      }
    }
  }

  /** An object text ends in its closing brace, up to white space. */
  lemma ObjectTextEnds(d: Document)
    requires WfDocument(d) && d.value.Obj?
    ensures var t := PrintDocument(d); t != [] && (t[|t| - 1] == RBRACE || IsWs(t[|t| - 1]))
  {
    hide Print;
    var v := Print(d.value, []);
    ObjectLast(d.value);
    assert [] + d.trail == d.trail;
    PrintPrepends(d.value, [], d.trail);
    var t := PrintDocument(d);
    assert t == d.lead + (v + d.trail);
    assert t[|t| - 1] == if d.trail == [] then v[|v| - 1] else d.trail[|d.trail| - 1];
  }

  lemma ObjectLast(v: Value)
    requires v.Obj?
    ensures var t := Print(v, []); t != [] && t[|t| - 1] == RBRACE
  {
    assert [RBRACE] + [] == [] + [RBRACE];
    PrintMembersPrepends(v.members, [], [RBRACE]);
  }

  lemma TornIsOneLine(line: Str, torn: Str)
    requires OneLine(line) && Torn(line, torn)
    ensures OneLine(torn)
  {
    var n := if torn < line then |torn| else |torn| - 1;
    assert torn[..n] <= line;
    forall i | 0 <= i < |torn| ensures torn[i] != NEWLINE {
      if i < n {
        assert line[i] == torn[..n][i] && line[i] in line;
      }
    }
  }

  /** What a crash leaves behind a clean file, and what repair makes of it. */
  ghost predicate Recovers(env: Env, broken: Str, events: seq<Event>, repaired: Str) {
    var v := Verify(env, broken);
    && !v.Ok()
    && Open(env, Some(broken)).Corrupt?
    && v.events == events
    && Repaired(broken, |events|) == Some(repaired)
    && Verify(env, repaired) == Verification(events, [])
  }

  /**
   * Crash recovery. When a write of the next event breaks off inside the event, verification fails
   * and the file is not opened; repair to the number of events that verification did return gives
   * back exactly the old file.
   */
  lemma CrashRecovery(env: Env, raw: Str, events: seq<Event>, e: Event, torn: Str)
    requires EnvOk(env) && Verify(env, raw) == Verification(events, []) && Torn(Line(e), torn)
    ensures Recovers(env, raw + torn, events, raw)
  {
    hide HashFor, Line, Stringify, Verify, Records, EnvOk, CheckRecord;
    VerifyMeaning(env, raw, events);
    JoinRecords(raw);
    LineShape(e);
    TornIsOneLine(Line(e), torn);
    var rs := Records(raw);
    RecordsOf(rs, torn);
    assert (rs + [torn])[..|rs|] == rs;
    TornIsNoEvent(env, e, torn);
    PartialLast(env, rs, torn, events);
    if events != [] {
      assert Linked(env, events, |events| - 1);
    }
    PartialOutcome(env, rs, torn, events);
  }

  /** When only the newline of the next event is lost, repair completes the event instead. */
  lemma CrashBeforeNewline(env: Env, raw: Str, events: seq<Event>, e: Event)
    requires EnvOk(env) && Verify(env, raw) == Verification(events, []) && Follows(env, events, e)
    ensures Recovers(env, raw + Line(e), events + [e], raw + (Line(e) + [NEWLINE]))
  {
    hide HashFor, Line, Stringify, Verify, Records, EnvOk, CheckRecord, SchemaValid;
    VerifyMeaning(env, raw, events);
    JoinRecords(raw);
    LineShape(e);
    var rs := Records(raw);
    RecordsOf(rs, Line(e));
    WholeLine(env, raw, events, e);
    assert (rs + [Line(e)])[..|rs| + 1] == rs + [Line(e)];
    JoinedConcat(rs, [Line(e)]);
    assert Joined([Line(e)]) == Line(e) + [NEWLINE];
  }

  /** Repair to any number of records keeps exactly the first ones, whole; other numbers are refused. */
  lemma RepairKeeps(raw: Str, keepCount: int)
    ensures Repaired(raw, keepCount).Some? <==> 0 <= keepCount <= |Records(raw)|
    ensures Repaired(raw, keepCount).Some? ==>
              var kept := Repaired(raw, keepCount).value;
              Records(kept) == Records(raw)[..keepCount] && EndsLine(kept)
  {
    hide Split;
    if Repaired(raw, keepCount).Some? {
      SplitParts(raw, NEWLINE);
      var ls := Records(raw)[..keepCount];
      assert forall i | 0 <= i < |ls| :: ls[i] == Split(raw, NEWLINE)[i];
      RecordsOf(ls, []);
      assert Joined(ls) + [] == Joined(ls);
    }
  }

  // ---- appends refine a list of events ----

  lemma {:induction false} SplitLength(s: Str, sep: CodeUnit)
    ensures |Split(s, sep)| <= |s| + 1
  {
    if s == [] {
    } else {
      SplitLength(s[1..], sep);
    }
  }

  /** A file within its cap numbers its events far below the unsafe integers. */
  lemma FewRecords(raw: Str)
    requires EndsLine(raw)
    ensures |Records(raw)| <= |raw|
  {
    hide Split;
    SplitLength(raw, NEWLINE);
  }

  lemma {:induction false} UnitsAreBytes(s: Str)
    ensures |s| <= Utf8Length(s)
    decreases |s|
  {
    if s == [] {
    } else {
      UnitsAreBytes(s[if s[0] >= 0x800 && |s| >= 2 && IsHighSurrogate(s[0]) && IsLowSurrogate(s[1]) then 2 else 1..]);
    }
  }

  lemma NewEventFollows(env: Env, s: State, events: seq<Event>, input: Input, now: Str)
    requires EnvOk(env) && Agrees(env, s, events) && env.isTimestamp(now) && Refusal(env, s, input, now).None?
    ensures Follows(env, events, NewEvent(env, s.cursor, input, now))
  {
    hide CheckRecords, Split, Line, CanonicalBytes, Utf8Length;
    var raw := Content(s.file);
    VerifyMeaning(env, raw, events);
    SealedHash(env, events);
    FewRecords(raw);
    UnitsAreBytes(raw);
  }

  predicate WithinCap(s: State) { Utf8Length(Content(s.file)) <= MAX_FILE_BYTES }

  /** One append: a success adds one event, a refusal changes nothing. */
  lemma AppendAddsOne(env: Env, s: State, events: seq<Event>, input: Input, now: Str, fault: Fault)
    requires EnvOk(env) && Agrees(env, s, events) && env.isTimestamp(now)
    ensures var (r, t) := Append(env, s, input, now, fault);
            match r
            case Appended(number) =>
              && number == |events| + 1
              && Agrees(env, t, events + [NewEvent(env, s.cursor, input, now)])
              && WithinCap(t)
            case NotAppended(reason) => reason == WriteFailed || t == s
  {
    hide HashFor, Line, Stringify, CheckRecords, EnvOk, Split, SchemaValid, Utf8Length;
    var raw := Content(s.file);
    if Refusal(env, s, input, now).None? && fault.NoFault? {
      NewEventFollows(env, s, events, input, now);
      var e := NewEvent(env, s.cursor, input, now);
      WholeLine(env, raw, events, e);
      VerifyMeaning(env, raw, events);
      Utf8LengthConcat(raw, NewLine(env, s.cursor, input, now));
    }
  }

  /** The event that an input asks for behind these events: its own data, redacted, in the next place of the chain. */
  predicate Answers(env: Env, events: seq<Event>, input: Input, now: Str, e: Event) {
    && e.body.number == |events| + 1 && e.body.ts == now
    && e.body.kind == input.kind && e.body.epoch == input.epoch && e.body.sleep == input.sleep
    && e.body.detail == env.redact(input.detail)
    && e.body.prevHash == (if events == [] then GENESIS else events[|events| - 1].hash)
    && e.hash == env.sha256(CanonicalBytes(e.body))
  }

  /** What an append writes: the last event of the file is the one that the input asks for. */
  lemma AppendWrites(env: Env, s: State, events: seq<Event>, input: Input, now: Str, fault: Fault)
    requires EnvOk(env) && Agrees(env, s, events) && env.isTimestamp(now)
    ensures var (r, t) := Append(env, s, input, now, fault);
            var found := Verify(env, Content(t.file));
            r.Appended? ==>
              && found.Ok() && |found.events| == |events| + 1 && found.events[..|events|] == events
              && Answers(env, events, input, now, found.events[|events|]) && r.number == |events| + 1
  {
    hide Append, Line, Stringify, CheckRecords, EnvOk, Split, SchemaValid, Utf8Length, Verify;
    AppendAddsOne(env, s, events, input, now, fault);
    var e := NewEvent(env, s.cursor, input, now);
    assert (events + [e])[..|events|] == events && (events + [e])[|events|] == e;
  }

  /** Whether and why an append without a fault is refused, from the event it would write. */
  lemma AppendedExactly(env: Env, s: State, events: seq<Event>, input: Input, now: Str, e: Event)
    requires EnvOk(env) && Agrees(env, s, events) && Answers(env, events, input, now, e)
    ensures var r := Append(env, s, input, now, NoFault).0;
            var wellFormed := 1 <= |input.kind| <= 128 && input.epoch >= 1;
            var detailFits := wellFormed && |env.redact(input.detail)| <= 2048;
            var lineFits := detailFits && Utf8Length(Line(e) + [NEWLINE]) <= 4096;
            var fileFits := lineFits && Utf8Length(Content(s.file) + (Line(e) + [NEWLINE])) <= 5 * 1024 * 1024;
            && (r.Appended? <==> fileFits)
            && (r == NotAppended(MalformedInput) <==> !wellFormed)
            && (r == NotAppended(DetailTooLarge) <==> wellFormed && !detailFits)
            && (r == NotAppended(EventTooLarge) <==> detailFits && !lineFits)
            && (r == NotAppended(AuditFull) <==> lineFits && !fileFits)
  {
    hide Line, Stringify, CanonicalBytes, CheckRecords, EnvOk, Split, SchemaValid, Utf8Length;
    assert e == NewEvent(env, s.cursor, input, now);
    var raw, line := Content(s.file), Line(e) + [NEWLINE];
    VerifyMeaning(env, raw, events);
    assert raw == [] || raw[|raw| - 1] == NEWLINE;
    Utf8LengthConcat(raw, line);
  }

  /**
   * A failed write keeps sink and file together exactly when none of the line reached the file.
   * The rest of a line makes verification fail; a whole line leaves the cursor one event behind.
   */
  lemma FailedWriteAgreesExactly(env: Env, s: State, events: seq<Event>, input: Input, now: Str, fault: Fault)
    requires EnvOk(env) && Agrees(env, s, events) && env.isTimestamp(now)
    requires Append(env, s, input, now, fault).0 == NotAppended(WriteFailed)
    ensures (exists es :: Agrees(env, Append(env, s, input, now, fault).1, es))
       <==> Landing(NewLine(env, s.cursor, input, now), fault) == []
  {
    hide HashFor, Line, Stringify, CheckRecords, EnvOk, Split, SchemaValid, Utf8Length;
    var raw := Content(s.file);
    var e := NewEvent(env, s.cursor, input, now);
    var line := Line(e) + [NEWLINE];
    var torn := Landing(line, fault);
    var t := Append(env, s, input, now, fault).1;
    if torn == [] {
      assert raw + torn == raw;
      assert Agrees(env, t, events);
    } else {
      assert Content(t.file) == raw + torn;
      NewEventFollows(env, s, events, input, now);
      if torn == line {
        WholeLine(env, raw, events, e);
      } else if torn == Line(e) {
        CrashBeforeNewline(env, raw, events, e);
      } else {
        LandingIsTorn(Line(e), fault);
        CrashRecovery(env, raw, events, e, torn);
      }
    }
  }

  lemma LandingIsTorn(line: Str, fault: Fault)
    requires fault.Fault?
    ensures var torn := Landing(line + [NEWLINE], fault);
            torn == [] || torn == line + [NEWLINE] || torn == line || Torn(line, torn)
  {
    var full := line + [NEWLINE];
    if fault.reached && fault.landed < |full| {
      var k := fault.landed;
      assert full[..k] == line[..k];
      var torn := Landing(full, fault);
      if fault.split && k + 1 < |full| {
        assert torn[..|torn| - 1] == line[..k];
        assert line[..k] < line;
      } else if k < |line| {
        assert line[..k] < line;
      } else {
        assert line[..k] == line;
      }
    }
  }

  datatype Attempt = Attempt(input: Input, now: Str, fault: Fault)

  function After(env: Env, s: State, a: Attempt): State { Append(env, s, a.input, a.now, a.fault).1 }

  function EventsAfter(env: Env, s: State, events: seq<Event>, a: Attempt): seq<Event> {
    if Append(env, s, a.input, a.now, a.fault).0.Appended? then events + [NewEvent(env, s.cursor, a.input, a.now)]
    else events
  }

  /** A failed write of this attempt puts something into the file. */
  predicate Lands(env: Env, s: State, a: Attempt) {
    && Append(env, s, a.input, a.now, a.fault).0 == NotAppended(WriteFailed)
    && Landing(NewLine(env, s.cursor, a.input, a.now), a.fault) != []
  }

  function RunAppends(env: Env, s: State, attempts: seq<Attempt>): State
    decreases |attempts|
  {
    if attempts == [] then s else RunAppends(env, After(env, s, attempts[0]), attempts[1..])
  }

  /** The events the run reported as appended, behind those already there. */
  function EventsOfRun(env: Env, s: State, events: seq<Event>, attempts: seq<Attempt>): seq<Event>
    decreases |attempts|
  {
    if attempts == [] then events
    else EventsOfRun(env, After(env, s, attempts[0]), EventsAfter(env, s, events, attempts[0]), attempts[1..])
  }

  /** After every attempt the sink would find itself on reopening the file. */
  ghost predicate AgreesThroughout(env: Env, s: State, attempts: seq<Attempt>)
    decreases |attempts|
  {
    && (exists es :: Agrees(env, s, es))
    && (attempts != [] ==> AgreesThroughout(env, After(env, s, attempts[0]), attempts[1..]))
  }

  /** No failed write of the run has put anything into the file. */
  predicate NothingLands(env: Env, s: State, attempts: seq<Attempt>)
    decreases |attempts|
  {
    attempts != [] ==>
      !Lands(env, s, attempts[0]) && NothingLands(env, After(env, s, attempts[0]), attempts[1..])
  }

  /**
   * Any run of successful, refused and failed appends from an opened sink keeps the file a chain
   * of the old events and the appended ones, with the live cursor where a fresh open would put
   * it, exactly when no failed write left a part of its line in the file.
   */
  lemma {:induction false} AppendsRefineList(env: Env, s: State, events: seq<Event>, attempts: seq<Attempt>)
    requires EnvOk(env) && Agrees(env, s, events)
    requires forall i | 0 <= i < |attempts| :: env.isTimestamp(attempts[i].now)
    ensures AgreesThroughout(env, s, attempts) <==> NothingLands(env, s, attempts)
    ensures NothingLands(env, s, attempts) ==>
      && Agrees(env, RunAppends(env, s, attempts), EventsOfRun(env, s, events, attempts))
      && Open(env, RunAppends(env, s, attempts).file) == Opened(RunAppends(env, s, attempts).cursor)
      && (WithinCap(s) ==> WithinCap(RunAppends(env, s, attempts)))
    decreases |attempts|
  {
    hide Append, Lands, Verify, NewEvent, EnvOk, Open, WithinCap;
    if attempts == [] {
      AgreesReopens(env, s, events);
    } else {
      var a := attempts[0];
      AppendStep(env, s, events, a);
      var t := After(env, s, a);
      if Lands(env, s, a) {
        assert !AgreesThroughout(env, t, attempts[1..]);
      } else {
        AppendsRefineList(env, t, EventsAfter(env, s, events, a), attempts[1..]);
      }
    }
  }

  lemma AppendStep(env: Env, s: State, events: seq<Event>, a: Attempt)
    requires EnvOk(env) && Agrees(env, s, events) && env.isTimestamp(a.now)
    ensures Lands(env, s, a) ==> !exists es :: Agrees(env, After(env, s, a), es)
    ensures !Lands(env, s, a) ==> Agrees(env, After(env, s, a), EventsAfter(env, s, events, a))
    ensures !Lands(env, s, a) && WithinCap(s) ==> WithinCap(After(env, s, a))
  {
    hide Verify, NewEvent, HashFor, Line, EnvOk, Utf8Length;
    AppendAddsOne(env, s, events, a.input, a.now, a.fault);
    if Append(env, s, a.input, a.now, a.fault).0 == NotAppended(WriteFailed) {
      FailedWriteAgreesExactly(env, s, events, a.input, a.now, a.fault);
      if Landing(NewLine(env, s.cursor, a.input, a.now), a.fault) == [] {
        assert Content(s.file) + [] == Content(s.file);
      }
    }
  }

  // ---- tamper evidence ----

  lemma SealedHash(env: Env, events: seq<Event>)
    requires EnvOk(env) && Chained(env, events)
    ensures |LastHash(events)| == if events == [] then 7 else 64
  {
    if events != [] {
      assert Linked(env, events, |events| - 1);
    }
  }

  /** Two different texts that events of the two chains commit to, with one SHA-256 value. */
  predicate Collides(env: Env, a: seq<Event>, b: seq<Event>, x: Str, y: Str) {
    && x != y && env.sha256(x) == env.sha256(y)
    && exists i, j | 0 <= i < |a| && 0 <= j < |b| :: x == CanonicalBytes(a[i].body) && y == CanonicalBytes(b[j].body)
  }

  lemma ChainFront(env: Env, events: seq<Event>)
    requires Chained(env, events) && events != []
    ensures var front, e := events[..|events| - 1], events[|events| - 1];
            Chained(env, front) && e.body.prevHash == LastHash(front) && e.hash == HashFor(env, e.body)
  {
    hide CanonicalBytes;
    var n := |events| - 1;
    assert Linked(env, events, n);
    forall i | 0 <= i < n ensures Linked(env, events[..n], i) {
      assert Linked(env, events, i);
    }
  }

  /**
   * Two chains that end in the same hash hold the same events, or two of their own events have
   * different texts with the same SHA-256 value, which are returned.
   */
  lemma {:induction false} TamperEvidence(env: Env, a: seq<Event>, b: seq<Event>) returns (x: Str, y: Str)
    requires EnvOk(env) && Chained(env, a) && Chained(env, b) && LastHash(a) == LastHash(b)
    ensures a == b || Collides(env, a, b, x, y)
    decreases |a|
  {
    hide CanonicalBytes, Chained, Linked, EnvOk;
    x, y := [], [];
    SealedHash(env, a);
    SealedHash(env, b);
    if a == [] || b == [] {
    } else {
      var m, n := |a| - 1, |b| - 1;
      ChainFront(env, a);
      ChainFront(env, b);
      x, y := CanonicalBytes(a[m].body), CanonicalBytes(b[n].body);
      if x == y {
        hide Collides;
        CanonicalBytesInjective(a[m].body, b[n].body);
        x, y := TamperEvidence(env, a[..m], b[..n]);
        assert a == a[..m] + [a[m]] && b == b[..n] + [b[n]];
        if a[..m] != b[..n] {
          CollisionStays(env, a, b, m, n, x, y);
        }
      }
    }
  }

  lemma CollisionStays(env: Env, a: seq<Event>, b: seq<Event>, m: nat, n: nat, x: Str, y: Str)
    requires m <= |a| && n <= |b| && Collides(env, a[..m], b[..n], x, y)
    ensures Collides(env, a, b, x, y)
  {
    hide CanonicalBytes;
    var i, j :| 0 <= i < m && 0 <= j < n && x == CanonicalBytes(a[..m][i].body) && y == CanonicalBytes(b[..n][j].body);
    assert a[i] == a[..m][i] && b[j] == b[..n][j];
  }

  /** The same for two files that verify. */
  lemma FilesWithEqualHeads(env: Env, file: Str, other: Str) returns (x: Str, y: Str)
    requires EnvOk(env) && Verify(env, file).Ok() && Verify(env, other).Ok()
    requires LastHash(Verify(env, file).events) == LastHash(Verify(env, other).events)
    ensures var (a, b) := (Verify(env, file).events, Verify(env, other).events);
            a == b || Collides(env, a, b, x, y)
  {
    hide HashFor, CheckRecords, Collides;
    VerifyMeaning(env, file, Verify(env, file).events);
    VerifyMeaning(env, other, Verify(env, other).events);
    x, y := TamperEvidence(env, Verify(env, file).events, Verify(env, other).events);
  }
}
