/** Opening, appending to and repairing the audit file. */
module AuditSink {
  import opened Text
  import opened Kernel
  import opened AuditStore

  datatype Input = Input(kind: Str, detail: Str, epoch: SafeInteger, sleep: Sleep)

  /** The writer's place in the chain. */
  datatype Cursor = Cursor(nextSeq: nat, prevHash: Str)

  datatype Reason =
    | MalformedInput
    | DetailTooLarge
    | EventTooLarge
    | AuditFull
    | WriteFailed

  datatype AppendResult = Appended(number: nat) | NotAppended(reason: Reason)

  /**
   * An input/output failure during an append: the file may not even have been opened, or some of
   * the line is in it. `landed` counts the units written, at most the whole line; `split` says that
   * the cut fell inside a character of several bytes, which reads back as U+FFFD.
   */
  datatype Fault = NoFault | Fault(reached: bool, landed: nat, split: bool)

  /** The file together with the cursor of its one writer. */
  datatype State = State(file: Option<Str>, cursor: Cursor)

  function Content(file: Option<Str>): Str { if file.None? then [] else file.value }

  predicate InputValid(input: Input) { 1 <= |input.kind| <= MAX_TYPE_UNITS && input.epoch >= 1 }

  /** The event an append is about to write. */
  function NewEvent(env: Env, cursor: Cursor, input: Input, now: Str): Event {
    var body := Body(cursor.nextSeq, now, input.epoch, input.kind, env.redact(input.detail), input.sleep, cursor.prevHash);
    Event(body, HashFor(env, body))
  }

  function NewLine(env: Env, cursor: Cursor, input: Input, now: Str): Str {
    Line(NewEvent(env, cursor, input, now)) + [NEWLINE]
  }

  /** Why an append is refused before the file is touched, if it is. */
  function Refusal(env: Env, s: State, input: Input, now: Str): Option<Reason> {
    var line := NewLine(env, s.cursor, input, now);
    if !InputValid(input) then Some(MalformedInput)
    else if |env.redact(input.detail)| > MAX_DETAIL_UNITS then Some(DetailTooLarge)
    else if Utf8Length(line) > MAX_EVENT_BYTES then Some(EventTooLarge)
    else if Utf8Length(Content(s.file)) + Utf8Length(line) > MAX_FILE_BYTES then Some(AuditFull)
    else None
  }

  /** What a faulty write leaves behind the old content. */
  function Landing(line: Str, fault: Fault): Str
    requires fault.Fault?
  {
    if !fault.reached then []
    else if fault.landed >= |line| then line
    else line[..fault.landed] + if fault.split && fault.landed + 1 < |line| then [REPLACEMENT] else []
  }

  function FileAfter(s: State, line: Str, fault: Fault): Option<Str> {
    match fault
    case NoFault => Some(Content(s.file) + line)
    case Fault(reached, _, _) => if reached then Some(Content(s.file) + Landing(line, fault)) else s.file
  }

  /** One append as a function of the state: the result and the state after it. */
  function Append(env: Env, s: State, input: Input, now: Str, fault: Fault): (AppendResult, State) {
    var refused := Refusal(env, s, input, now);
    if refused.Some? then (NotAppended(refused.value), s)
    else
      var event := NewEvent(env, s.cursor, input, now);
      var file := FileAfter(s, NewLine(env, s.cursor, input, now), fault);
      if fault.Fault? then (NotAppended(WriteFailed), State(file, s.cursor))
      else (Appended(event.body.number), State(file, Cursor(s.cursor.nextSeq + 1, event.hash)))
  }

  /** Where a writer of a chain of these events stands. */
  function CursorAfter(events: seq<Event>): Cursor { Cursor(|events| + 1, LastHash(events)) }

  datatype OpenResult = Opened(cursor: Cursor) | Corrupt(first: Defect) | Unreadable

  /** Opening a file that can be read. */
  function Open(env: Env, file: Option<Str>): OpenResult {
    if file.None? then Opened(Cursor(1, GENESIS))
    else
      var v := Verify(env, file.value);
      if !v.Ok() then Corrupt(v.errors[0]) else Opened(CursorAfter(v.events))
  }

  /** The file after keeping the first `keepCount` records, or None when the count is out of range. */
  function Repaired(raw: Str, keepCount: int): Option<Str> {
    if 0 <= keepCount <= |Records(raw)| then Some(Joined(Records(raw)[..keepCount])) else None
  }

  // ---- the mutable file and sink ----

  class AuditFile {
    var content: Option<Str>

    constructor (content: Option<Str>)
      ensures this.content == content
    {
      this.content := content;
    }

    /** kept.join("\n") and a last newline, or nothing at all when no line is kept; false stands for an exception. */
    method RepairToPrefix(keepCount: int) returns (ok: bool)
      modifies this
      ensures ok <==> old(content).Some? && Repaired(old(content).value, keepCount).Some?
      ensures content == if ok then Repaired(old(content).value, keepCount) else old(content)
    {
      if content.None? {
        return false;
      }
      var body := Records(content.value);
      if keepCount < 0 || keepCount > |body| {
        return false;
      }
      var kept := body[..keepCount];
      var payload: Str := [];
      for k := 0 to |kept|
        invariant payload == Joined(kept[..k])
      {
        JoinedConcat(kept[..k], [kept[k]]);
        assert kept[..k + 1] == kept[..k] + [kept[k]];
        assert Joined([kept[k]]) == kept[k] + [NEWLINE];
        payload := payload + (kept[k] + [NEWLINE]);
      }
      assert kept[..|kept|] == kept;
      content := Some(payload);
      return true;
    }
  }

  class Sink {
    const file: AuditFile
    var nextSeq: nat
    var prevHash: Str

    constructor (file: AuditFile, cursor: Cursor)
      ensures this.file == file && Cursor(nextSeq, prevHash) == cursor
    {
      this.file := file;
      nextSeq, prevHash := cursor.nextSeq, cursor.prevHash;
    }

    ghost function Now(): State
      reads this, file
    {
      State(file.content, Cursor(nextSeq, prevHash))
    }

    method AppendEvent(env: Env, input: Input, now: Str, fault: Fault) returns (r: AppendResult)
      modifies this, file
      ensures (r, Now()) == Append(env, old(Now()), input, now, fault)
    {
      hide HashFor, Line, Utf8Length;
      if !InputValid(input) {
        return NotAppended(MalformedInput);
      }
      var detail := env.redact(input.detail);
      if |detail| > MAX_DETAIL_UNITS {
        return NotAppended(DetailTooLarge);
      }
      var body := Body(nextSeq, now, input.epoch, input.kind, detail, input.sleep, prevHash);
      var event := Event(body, HashFor(env, body));
      var line := Line(event) + [NEWLINE];
      if Utf8Length(line) > MAX_EVENT_BYTES {
        return NotAppended(EventTooLarge);
      }
      if Utf8Length(Content(file.content)) + Utf8Length(line) > MAX_FILE_BYTES {
        return NotAppended(AuditFull);
      }
      file.content := FileAfter(State(file.content, Cursor(nextSeq, prevHash)), line, fault);
      if fault.Fault? {
        return NotAppended(WriteFailed);
      }
      nextSeq := nextSeq + 1;
      prevHash := event.hash;
      return Appended(event.body.number);
    }
  }

  /** `readable` says whether reading an existing file succeeds. */
  method OpenAuditSink(env: Env, file: AuditFile, readable: bool) returns (r: OpenResult)
    ensures r == if file.content.Some? && !readable then Unreadable else Open(env, file.content)
  {
    if file.content.Some? && !readable {
      return Unreadable;
    }
    match file.content {
      case None => r := Opened(Cursor(1, GENESIS));
      case Some(raw) =>
        var v := VerifyAuditContent(env, raw);
        if v.errors != [] {
          r := Corrupt(v.errors[0]);
        } else {
          var prev := if v.events == [] then GENESIS else v.events[|v.events| - 1].hash;
          r := Opened(Cursor(|v.events| + 1, prev));
        }
    }
  }
}
