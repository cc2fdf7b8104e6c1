/** What the verifier of the audit file finds, defect by defect: the events that parse and what is wrong with each line. */
module AuditFindings {
  import opened Text
  import opened AuditStore
  import opened AuditSink
  import opened AuditGuarantees

  /** The events of the records that hold one. */
  function Parsed(env: Env, records: seq<Str>): seq<Event> {
    if records == [] then []
    else
      var n := |records| - 1;
      Parsed(env, records[..n])
      + if records[n] != [] && env.parseLine(records[n]).IsEvent? then [env.parseLine(records[n]).event] else []
  }

  /** Something is wrong with a record, by itself or against the last event before it. */
  predicate WrongHere(env: Env, before: seq<Event>, record: Str, d: Defect) {
    match d
    case PartialRecord(_) => false
    case EmptyLine(_) => record == []
    case MalformedJson(_) => record != [] && env.parseLine(record).NotJson?
    case SchemaInvalid(_) => record != [] && env.parseLine(record).NotAnEvent?
    case Discontinuity(_) =>
      record != [] && env.parseLine(record).IsEvent?
      && env.parseLine(record).event.body.number != if before == [] then 1 else before[|before| - 1].body.number + 1
    case BrokenChain(_) =>
      record != [] && env.parseLine(record).IsEvent?
      && env.parseLine(record).event.body.prevHash != if before == [] then Ascii("GENESIS") else before[|before| - 1].hash
    case BrokenHash(_) =>
      record != [] && env.parseLine(record).IsEvent?
      && env.parseLine(record).event.hash != env.sha256(CanonicalBytes(env.parseLine(record).event.body))
  }

  predicate Wrong(env: Env, records: seq<Str>, d: Defect) {
    1 <= d.line <= |records| && WrongHere(env, Parsed(env, records[..d.line - 1]), records[d.line - 1], d)
  }

  predicate InOrder(errors: seq<Defect>) { forall i, j | 0 <= i < j < |errors| :: errors[i].line <= errors[j].line }

  lemma WrongStays(env: Env, records: seq<Str>, record: Str, d: Defect)
    ensures Wrong(env, records + [record], d) <==>
              Wrong(env, records, d) || (d.line == |records| + 1 && Wrong(env, records + [record], d))
  {
    hide Parsed, WrongHere;
    var all := records + [record];
    if 1 <= d.line <= |records| {
      assert all[..d.line - 1] == records[..d.line - 1];
    }
  }

  lemma LoneRecord(env: Env, before: seq<Event>, record: Str, line: nat)
    ensures var v := CheckRecord(env, Verification(before, []), record, line);
            && (forall d :: d in v.errors <==> d.line == line && WrongHere(env, before, record, d))
            && v.events == before + if record != [] && env.parseLine(record).IsEvent? then [env.parseLine(record).event] else []
  {
    hide CanonicalBytes;
  }

  lemma OneRecord(env: Env, records: seq<Str>, record: Str, found: Verification)
    requires found.events == Parsed(env, records) && InOrder(found.errors) && forall d | d in found.errors :: d.line <= |records|
    ensures var v := CheckRecord(env, found, record, |records| + 1);
            && v.events == Parsed(env, records + [record]) && InOrder(v.errors) && (forall d | d in v.errors :: d.line <= |records| + 1)
            && forall d :: d in v.errors <==> d in found.errors || (d.line == |records| + 1 && Wrong(env, records + [record], d))
  {
    hide CheckRecord, WrongHere;
    var all, line := records + [record], |records| + 1;
    assert all[..|records|] == records;
    LoneRecord(env, found.events, record, line);
    var w := CheckRecord(env, Verification(found.events, []), record, line);
    CheckRecordIndependent(env, Verification(found.events, []), found.errors, record, line);
    assert found.errors + [] == found.errors && found == Verification(found.events, found.errors);
    assert CheckRecord(env, found, record, line).errors == found.errors + w.errors;
  }

  lemma {:induction false} RecordsExactly(env: Env, records: seq<Str>)
    ensures var v := CheckRecords(env, Verification([], []), records);
            && v.events == Parsed(env, records) && InOrder(v.errors) && (forall d | d in v.errors :: d.line <= |records|)
            && forall d :: d in v.errors <==> Wrong(env, records, d)
    decreases |records|
  {
    hide CheckRecord, Wrong, InOrder, Parsed;
    if records == [] {
      NothingWrong(env);
    } else {
      var n := |records| - 1;
      RecordsExactly(env, records[..n]);
      assert records == records[..n] + [records[n]];
      OneRecord(env, records[..n], records[n], CheckRecords(env, Verification([], []), records[..n]));
      forall d ensures Wrong(env, records, d) <==> Wrong(env, records[..n], d) || (d.line == n + 1 && Wrong(env, records, d)) {
        WrongStays(env, records[..n], records[n], d);
      }
    }
  }

  lemma NothingWrong(env: Env)
    ensures Parsed(env, []) == [] && InOrder([]) && forall d :: !Wrong(env, [], d)
  {
  }

  /** Verification gives the events that parse and, line by line, exactly what is wrong; a missing last newline comes first. */
  lemma FindsExactly(env: Env, raw: Str)
    ensures var v, records := Verify(env, raw), Records(raw);
            && v.events == Parsed(env, records)
            && (forall d :: d in v.errors <==> Wrong(env, records, d) || (!EndsLine(raw) && d == PartialRecord(|records|)))
            && (EndsLine(raw) ==> InOrder(v.errors))
            && (!EndsLine(raw) ==> v.errors != [] && v.errors[0] == PartialRecord(|records|) && InOrder(v.errors[1..]))
  {
    hide CheckRecords, Wrong, InOrder, Parsed, EndsLine, Records;
    var records := Records(raw);
    RecordsExactly(env, records);
    if !EndsLine(raw) {
      ErrorsIndependent(env, records, [PartialRecord(|records|)]);
      var errors := CheckRecords(env, Verification([], []), records).errors;
      assert ([PartialRecord(|records|)] + errors)[1..] == errors;
    }
  }

  /**
   * Opening reports the first defect: the missing newline if there is none at the end, and
   * otherwise one that no line before its own has. Without a defect it gives the number and the
   * hash to go on with.
   */
  lemma FirstDefect(env: Env, raw: Str)
    ensures var r, records := Open(env, Some(raw)), Records(raw);
            && (r.Corrupt? <==> !EndsLine(raw) || exists d :: Wrong(env, records, d))
            && (r.Corrupt? && !EndsLine(raw) ==> r.first == PartialRecord(|records|))
            && (r.Corrupt? && EndsLine(raw) ==> Wrong(env, records, r.first) && forall d :: Wrong(env, records, d) ==> r.first.line <= d.line)
            && (r.Opened? ==>
                  && r.cursor.nextSeq == |records| + 1
                  && r.cursor.prevHash == if records == [] then Ascii("GENESIS") else env.parseLine(records[|records| - 1]).event.hash)
  {
    hide CheckRecords, Wrong, Parsed, EndsLine, Records;
    FindsExactly(env, raw);
    var v, records := Verify(env, raw), Records(raw);
    if v.errors == [] {
      assert v == Verification(v.events, []);
      VerifyMeaning(env, raw, v.events);
    } else if EndsLine(raw) {
      assert v.errors[0] in v.errors && Wrong(env, records, v.errors[0]);
    }
  }
}
