/**
 * The durable memory store of src/memory/store.ts: one JSON file, replaced as a whole through a
 * temporary file. A file is its text; JSON.parse and the timestamp shape come in through `Env`.
 */
module MemoryStore {
  import opened Text
  import opened JsonText
  import opened JsonStringify
  import opened Kernel
  import opened Replacement

  const MAX_CONTENT_CHARS: nat := 4096
  const MAX_STORED_UNITS: nat := MAX_CONTENT_CHARS + 32
  const MAX_RECORDS: nat := 1000
  const MAX_TOTAL_STORAGE_BYTES: nat := 4 * 1024 * 1024
  const MAX_RECORD_BYTES: nat := 8192

  datatype MemoryKind = Fact | Preference | Project | Instruction

  datatype Record = Record(
    id: Str, content: Str, kind: MemoryKind, createdAt: Str, updatedAt: Str, source: Str, taskId: Str, epoch: SafeInteger)

  /** JSON.parse and the types of the schema; its bounds are checked below. */
  datatype ParsedStore = NotJson | WrongShape | Shape(records: seq<Record>)

  datatype Env = Env(parse: Str -> ParsedStore, isDatetime: Str -> bool)

  ghost predicate EnvOk(env: Env) { forall rs :: env.parse(Payload(rs)) == Shape(rs) }

  // ---- encoding ----

  function KindName(k: MemoryKind): Str {
    match k
    case Fact => Ascii("fact")
    case Preference => Ascii("preference")
    case Project => Ascii("project")
    case Instruction => Ascii("instruction")
  }

  function RecordFields(r: Record): (fs: seq<Field>)
    ensures |fs| == 9
  {
    [Field(Ascii("v"), IntField(1)),
     Field(Ascii("id"), StrField(r.id)),
     Field(Ascii("content"), StrField(r.content)),
     Field(Ascii("kind"), StrField(KindName(r.kind))),
     Field(Ascii("createdAt"), StrField(r.createdAt)),
     Field(Ascii("updatedAt"), StrField(r.updatedAt)),
     Field(Ascii("source"), StrField(r.source)),
     Field(Ascii("taskId"), StrField(r.taskId)),
     Field(Ascii("epoch"), IntField(r.epoch))]
  }

  /** The elements of an array of objects, comma-separated, in front of `rest`. */
  function Elements(objects: seq<seq<Field>>, rest: Str): Str
    decreases |objects|
  {
    if objects == [] then rest
    else Stringify(objects[0]) + if |objects| == 1 then rest else [COMMA] + Elements(objects[1..], rest)
  }

  function AllFields(rs: seq<Record>): (r: seq<seq<Field>>)
    ensures |r| == |rs|
  {
    if rs == [] then [] else [RecordFields(rs[0])] + AllFields(rs[1..])
  }

  const HEAD: Str := Ascii("{\"v\":1,\"records\":[")
  const TAIL: Str := [RBRACKET, RBRACE, NEWLINE]

  function Payload(rs: seq<Record>): Str { HEAD + Elements(AllFields(rs), TAIL) }

  lemma StringifyCut(f: seq<Field>, r: Str, g: seq<Field>, s: Str)
    requires f != [] && g != [] && Stringify(f) + r == Stringify(g) + s
    ensures f == g && r == s
  {
    hide PrintMembers;
    PrintPrepends(ToObject(f), [], r);
    PrintPrepends(ToObject(g), [], s);
    assert [] + r == r && [] + s == s;
    assert Print(ToObject(f), r)[1..] == PrintMembers(ToMembers(f), [RBRACE] + r);
    assert Print(ToObject(g), s)[1..] == PrintMembers(ToMembers(g), [RBRACE] + s);
    MembersReadBack(f, r, g, s);
  }

  lemma StringifyStarts(f: seq<Field>)
    ensures Stringify(f) != [] && Stringify(f)[0] == LBRACE
  {
  }

  /** What stands behind the first element. */
  function Behind(a: seq<seq<Field>>, r: Str): Str
    requires a != []
  {
    if |a| == 1 then r else [COMMA] + Elements(a[1..], r)
  }

  lemma ElementsFirst(a: seq<seq<Field>>, r: Str)
    requires r != [] && r[0] == RBRACKET
    ensures a == [] ==> Elements(a, r) == r
    ensures a != [] ==> Elements(a, r) == Stringify(a[0]) + Behind(a, r)
    ensures Elements(a, r) != [] && Elements(a, r)[0] == if a == [] then RBRACKET else LBRACE
    ensures a != [] ==> Behind(a, r) != [] && Behind(a, r)[0] == if |a| == 1 then RBRACKET else COMMA
  {
    hide Stringify;
    if a != [] {
      StringifyStarts(a[0]);
    }
  }

  predicate NonEmptyEach(a: seq<seq<Field>>) { forall i | 0 <= i < |a| :: a[i] != [] }

  lemma {:induction false} ElementsCut(a: seq<seq<Field>>, r: Str, b: seq<seq<Field>>, s: Str)
    requires NonEmptyEach(a) && NonEmptyEach(b)
    requires r != [] && s != [] && r[0] == s[0] == RBRACKET
    requires Elements(a, r) == Elements(b, s)
    ensures a == b && r == s
    decreases |a|
  {
    hide Stringify, Elements;
    ElementsFirst(a, r);
    ElementsFirst(b, s);
    if a == [] {
    } else {
      StringifyCut(a[0], Behind(a, r), b[0], Behind(b, s));
      if |a| > 1 {
        assert Behind(a, r)[1..] == Elements(a[1..], r) && Behind(b, s)[1..] == Elements(b[1..], s);
        ElementsCut(a[1..], r, b[1..], s);
      }
      assert a == [a[0]] + a[1..] && b == [b[0]] + b[1..];
    }
  }

  lemma RecordFieldsInjective(a: Record, b: Record)
    requires RecordFields(a) == RecordFields(b)
    ensures a == b
  {
    var fs, gs := RecordFields(a), RecordFields(b);
    assert fs[1] == gs[1] && fs[2] == gs[2] && fs[3] == gs[3] && fs[4] == gs[4];
    assert fs[5] == gs[5] && fs[6] == gs[6] && fs[7] == gs[7] && fs[8] == gs[8];
    assert |KindName(a.kind)| == |KindName(b.kind)|;
  }

  lemma {:induction false} AllFieldsInjective(a: seq<Record>, b: seq<Record>)
    requires AllFields(a) == AllFields(b)
    ensures a == b
  {
    if a == [] {
    } else {
      assert AllFields(a)[0] == AllFields(b)[0] && AllFields(a)[1..] == AllFields(b)[1..];
      RecordFieldsInjective(a[0], b[0]);
      AllFieldsInjective(a[1..], b[1..]);
      assert a == [a[0]] + a[1..] && b == [b[0]] + b[1..];
    }
  }

  lemma {:induction false} AllFieldsNonEmpty(rs: seq<Record>)
    ensures NonEmptyEach(AllFields(rs))
  {
    if rs == [] {
    } else {
      AllFieldsNonEmpty(rs[1..]);
    }
  }

  /** The file text determines the records, so reading back can be exact. */
  lemma PayloadInjective(a: seq<Record>, b: seq<Record>)
    requires Payload(a) == Payload(b)
    ensures a == b
  {
    hide Elements, AllFields;
    var x, y := Elements(AllFields(a), TAIL), Elements(AllFields(b), TAIL);
    assert x == Payload(a)[|HEAD|..] && y == Payload(b)[|HEAD|..];
    AllFieldsNonEmpty(a);
    AllFieldsNonEmpty(b);
    ElementsCut(AllFields(a), TAIL, AllFields(b), TAIL);
    AllFieldsInjective(a, b);
  }

  // ---- sizes ----

  function RecordBytes(r: Record): nat { Utf8Length(Stringify(RecordFields(r))) }

  function TotalBytes(rs: seq<Record>): nat {
    if rs == [] then 0 else RecordBytes(rs[0]) + TotalBytes(rs[1..])
  }

  lemma {:induction false} ElementsSize(rs: seq<Record>, rest: Str)
    requires rest == [] || rest[0] < 0x80
    ensures Utf8Length(Elements(AllFields(rs), rest))
         == TotalBytes(rs) + (if rs == [] then 0 else |rs| - 1) + Utf8Length(rest)
    decreases |rs|
  {
    hide Stringify, RecordFields;
    if rs == [] {
    } else {
      var first := Stringify(RecordFields(rs[0]));
      assert AllFields(rs)[1..] == AllFields(rs[1..]);
      if |rs| == 1 {
        Utf8LengthConcat(first, rest);
        assert TotalBytes(rs[1..]) == 0;
      } else {
        var more := Elements(AllFields(rs[1..]), rest);
        Utf8LengthConcat(first, [COMMA] + more);
        assert ([COMMA] + more)[1..] == more;
        ElementsSize(rs[1..], rest);
      }
    }
  }

  function PayloadBytes(rs: seq<Record>): nat { Utf8Length(Payload(rs)) }

  lemma PayloadSize(rs: seq<Record>)
    ensures PayloadBytes(rs) == |HEAD| + TotalBytes(rs) + (if rs == [] then 0 else |rs| - 1) + 3
  {
    hide Elements, AllFields, TotalBytes, Utf8Length;
    HeadAndTailSize();
    Utf8LengthConcat(HEAD, Elements(AllFields(rs), TAIL));
    ElementsSize(rs, TAIL);
  }

  lemma HeadAndTailSize()
    ensures Utf8Length(HEAD) == |HEAD| && Utf8Length(TAIL) == 3
  {
    hide Utf8Length;
    AsciiSize(HEAD);
    AsciiSize(TAIL);
  }

  lemma {:induction false} AsciiSize(s: Str)
    requires forall i | 0 <= i < |s| :: s[i] < 0x80
    ensures Utf8Length(s) == |s|
  {
    if s == [] {
    } else {
      AsciiSize(s[1..]);
    }
  }

  // ---- opening ----

  datatype OpenResult = Opened(records: seq<Record>) | NotOpened(defect: Defect)
  datatype Defect = InvalidJson | SchemaFailed | StorageTooLarge

  /** The bounds of MemoryRecordSchema; text lengths count UTF-16 units. */
  predicate SchemaOk(env: Env, r: Record) {
    && 1 <= |r.id| <= 64
    && |r.content| <= MAX_STORED_UNITS
    && env.isDatetime(r.createdAt) && env.isDatetime(r.updatedAt)
    && 1 <= |r.source| <= 64
    && 1 <= |r.taskId| <= 128
    && r.epoch >= 1
  }

  predicate AllSchemaOk(env: Env, rs: seq<Record>) { forall r | r in rs :: SchemaOk(env, r) }

  function Open(env: Env, main: Option<Str>): OpenResult {
    if main.None? then Opened([])
    else
      match env.parse(main.value)
      case NotJson => NotOpened(InvalidJson)
      case WrongShape => NotOpened(SchemaFailed)
      case Shape(rs) =>
        if |rs| > MAX_RECORDS || !AllSchemaOk(env, rs) then NotOpened(SchemaFailed)
        else if Utf8Length(main.value) > MAX_TOTAL_STORAGE_BYTES then NotOpened(StorageTooLarge)
        else Opened(rs)
  }

  // ---- saving ----

  datatype SaveResult = Saved | NotSaved(reason: SaveReason)
  datatype SaveReason = TooManyRecords | RecordTooLarge | StoreTooLarge | WriteFailed

  datatype State = State(records: seq<Record>, disk: Disk)

  function BoundBroken(rs: seq<Record>): Option<SaveReason> {
    if |rs| > MAX_RECORDS then Some(TooManyRecords)
    else if exists r | r in rs :: RecordBytes(r) > MAX_RECORD_BYTES then Some(RecordTooLarge)
    else if PayloadBytes(rs) > MAX_TOTAL_STORAGE_BYTES then Some(StoreTooLarge)
    else None
  }

  function Save(s: State, rs: seq<Record>, b: Break): (SaveResult, State) {
    var broken := BoundBroken(rs);
    if broken.Some? then (NotSaved(broken.value), s)
    else
      var disk := DiskAfter(s.disk, Payload(rs), b);
      if b.Smooth? then (Saved, State(rs, disk)) else (NotSaved(WriteFailed), s.(disk := disk))
  }

  class Store {
    var records: seq<Record>
    var disk: Disk

    constructor (records: seq<Record>, disk: Disk)
      ensures Now() == State(records, disk)
    {
      this.records, this.disk := records, disk;
    }

    function Now(): State
      reads this
    {
      State(records, disk)
    }

    /** saveMemoryStore: bounds first, then the file, then the records in memory. */
    method SaveMemoryStore(next: seq<Record>, b: Break) returns (r: SaveResult)
      modifies this
      ensures (r, Now()) == Save(old(Now()), next, b)
    {
      hide RecordBytes, Payload;
      if |next| > MAX_RECORDS {
        return NotSaved(TooManyRecords);
      }
      for k := 0 to |next|
        invariant forall j | 0 <= j < k :: RecordBytes(next[j]) <= MAX_RECORD_BYTES
      {
        if RecordBytes(next[k]) > MAX_RECORD_BYTES {
          return NotSaved(RecordTooLarge);
        }
      }
      var payload := Payload(next);
      if Utf8Length(payload) > MAX_TOTAL_STORAGE_BYTES {
        return NotSaved(StoreTooLarge);
      }
      if b == BreaksAt(OpenTmp) {
        return NotSaved(WriteFailed);
      }
      disk := disk.(tmp := Some([]));
      if b.BreaksAt? && b.stage.WriteTmp? {
        disk := disk.(tmp := Some(if b.stage.landed < |payload| then payload[..b.stage.landed] else payload));
        return NotSaved(WriteFailed);
      }
      disk := disk.(tmp := Some(payload));
      if b.BreaksAt? {
        return NotSaved(WriteFailed);
      }
      disk := Disk(disk.tmp, None);
      records := next;
      return Saved;
    }
  }

  // ---- what saving guarantees ----

  /** Reopening gives what is in memory. */
  predicate Agrees(env: Env, s: State) { Open(env, s.disk.main) == Opened(s.records) }

  lemma PayloadOpens(env: Env, rs: seq<Record>)
    requires EnvOk(env) && BoundBroken(rs).None?
    ensures Open(env, Some(Payload(rs))) == if AllSchemaOk(env, rs) then Opened(rs) else NotOpened(SchemaFailed)
  {
    hide Payload;
    assert env.parse(Payload(rs)) == Shape(rs);
  }

  /**
   * Replacement is atomic. Wherever it breaks off, the file opens to the old records or to what
   * the new text opens to; a failed save changes neither the file nor the records in memory; a
   * finished save meets all bounds, and it reopens exactly when every record meets the schema.
   */
  lemma SaveIsAtomic(env: Env, s: State, rs: seq<Record>, b: Break)
    requires EnvOk(env) && Agrees(env, s)
    ensures var (r, t) := Save(s, rs, b);
            && (r != Saved ==> t.records == s.records && t.disk.main == s.disk.main && Agrees(env, t))
            && (r == Saved ==> t.records == rs && BoundBroken(rs).None? && (Agrees(env, t) <==> AllSchemaOk(env, rs)))
    ensures Open(env, DiskAfter(s.disk, Payload(rs), b).main)
              in {Opened(s.records), Open(env, Some(Payload(rs)))}
  {
    hide Payload, Open;
    if BoundBroken(rs).None? {
      PayloadOpens(env, rs);
    }
  }

  // ---- deletion stays within the bounds ----

  function WithoutRecord(rs: seq<Record>, id: Str): seq<Record> {
    if rs == [] then []
    else if rs[0].id == id then WithoutRecord(rs[1..], id)
    else [rs[0]] + WithoutRecord(rs[1..], id)
  }

  lemma {:induction false} WithoutMembers(rs: seq<Record>, id: Str)
    ensures forall x :: x in WithoutRecord(rs, id) <==> x in rs && x.id != id
  {
    if rs == [] {
    } else {
      WithoutMembers(rs[1..], id);
      assert rs == [rs[0]] + rs[1..];
    }
  }

  lemma {:induction false} WithoutShrinks(rs: seq<Record>, id: Str)
    ensures |WithoutRecord(rs, id)| <= |rs|
    ensures TotalBytes(WithoutRecord(rs, id)) <= TotalBytes(rs)
  {
    hide RecordBytes;
    if rs == [] {
    } else {
      WithoutShrinks(rs[1..], id);
      if rs[0].id != id {
        assert WithoutRecord(rs, id)[1..] == WithoutRecord(rs[1..], id);
      }
    }
  }

  /** A store within its bounds stays within them when records are removed. */
  lemma DeletionNeverExceeds(rs: seq<Record>, id: Str)
    requires BoundBroken(rs).None?
    ensures BoundBroken(WithoutRecord(rs, id)).None?
  {
    hide TotalBytes, RecordBytes, PayloadBytes;
    PayloadSize(rs);
    PayloadSize(WithoutRecord(rs, id));
    WithoutShrinks(rs, id);
    WithoutMembers(rs, id);
  }
}
