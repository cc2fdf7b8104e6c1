/**
 * The memory service of src/memory/service.ts: reads, writes and deletions behind the
 * authorization kernel, over one store that all tasks share.
 */
module MemoryService {
  import opened Text
  import opened Sequences
  import opened JsonStringify
  import opened Kernel
  import opened Authorize
  import opened Session
  import opened Replacement
  import opened MemoryStore

  const MAX_QUERY_CHARS: nat := 256
  const MAX_RESULTS: nat := 20
  const MAX_PAYLOAD_BYTES: nat := 64 * 1024

  /** The string tools of the service: search normalisation and the secret screen, both regular expressions. */
  datatype Tools = Tools(normalize: Str -> Str, secretLike: Str -> bool)

  // ---- proposals ----

  datatype Proposal =
    | ReadProposal(query: Str, maxResults: Option<nat>)
    | WriteProposal(content: Str, kind: MemoryKind)
    | DeleteProposal(memoryId: Str)

  predicate CleanText(s: Str, maxCodePoints: nat) {
    && 0 < CodePoints(s) <= maxCodePoints
    && forall i | 0 <= i < |s| :: s[i] >= 0x20 && s[i] != 0x7F
  }

  predicate IdUnit(u: CodeUnit) { IsDigit(u) || 0x41 <= u <= 0x5A || 0x61 <= u <= 0x7A || u == 0x5F || u == 0x2D }

  predicate ProposalOk(p: Proposal) {
    match p
    case ReadProposal(query, maxResults) =>
      && 1 <= |query| <= MAX_QUERY_CHARS * 2 + 64 && CleanText(query, MAX_QUERY_CHARS)
      && (maxResults.Some? ==> 1 <= maxResults.value <= MAX_RESULTS)
    case WriteProposal(content, _) =>
      1 <= |content| <= MAX_CONTENT_CHARS * 2 + 256 && CleanText(content, MAX_CONTENT_CHARS)
    case DeleteProposal(id) => 1 <= |id| <= 64 && forall i | 0 <= i < |id| :: IdUnit(id[i])
  }

  function Capability(p: Proposal): Str {
    match p
    case ReadProposal(_, _) => Ascii("memory.read")
    case WriteProposal(_, _) => Ascii("memory.write")
    case DeleteProposal(_) => Ascii("memory.delete")
  }

  function Operation(p: Proposal): Str {
    match p
    case ReadProposal(_, _) => Ascii("read")
    case WriteProposal(_, _) => Ascii("write")
    case DeleteProposal(_) => Ascii("delete")
  }

  function RequestFor(p: Proposal, taskId: Str): Request {
    Request(Capability(p), Operation(p), None, Some(taskId), None)
  }

  // ---- reading ----

  datatype View = View(id: Str, kind: MemoryKind, content: Str, createdAt: Str, taskId: Str)

  function ToView(r: Record): View { View(r.id, r.kind, r.content, r.createdAt, r.taskId) }

  function ToViews(rs: seq<Record>): (r: seq<View>)
    ensures |r| == |rs|
  {
    if rs == [] then [] else [ToView(rs[0])] + ToViews(rs[1..])
  }

  function Owned(rs: seq<Record>, taskId: Str): seq<Record> {
    if rs == [] then []
    else (if rs[0].taskId == taskId then [rs[0]] else []) + Owned(rs[1..], taskId)
  }

  predicate Includes(hay: Str, needle: Str) {
    exists i | 0 <= i <= |hay| :: needle <= hay[i..]
  }

  function Matched(tools: Tools, rs: seq<Record>, needle: Str): seq<Record> {
    if rs == [] then []
    else (if Includes(tools.normalize(rs[0].content), needle) then [rs[0]] else []) + Matched(tools, rs[1..], needle)
  }

  function ViewFields(v: View): (fs: seq<Field>)
    ensures |fs| == 5
  {
    [Field(Ascii("id"), StrField(v.id)),
     Field(Ascii("kind"), StrField(KindName(v.kind))),
     Field(Ascii("content"), StrField(v.content)),
     Field(Ascii("createdAt"), StrField(v.createdAt)),
     Field(Ascii("taskId"), StrField(v.taskId))]
  }

  function AllViewFields(vs: seq<View>): seq<seq<Field>> {
    if vs == [] then [] else [ViewFields(vs[0])] + AllViewFields(vs[1..])
  }

  /** The size of the views as a JSON array. */
  function ViewBytes(vs: seq<View>): nat { Utf8Length([LBRACKET] + Elements(AllViewFields(vs), [RBRACKET])) }

  /** Drops views from the end until they fit. */
  function Shrunk(vs: seq<View>): (r: seq<View>)
    ensures r <= vs
  {
    if ViewBytes(vs) <= MAX_PAYLOAD_BYTES || vs == [] then vs else Shrunk(vs[..|vs| - 1])
  }

  /** The read-result contract. */
  predicate ContractOk(vs: seq<View>) {
    && |vs| <= MAX_RESULTS
    && forall v | v in vs :: |v.id| <= 64 && |v.content| <= MAX_STORED_UNITS && |v.taskId| <= 128
  }

  function Answer(tools: Tools, rs: seq<Record>, taskId: Str, query: Str, maxResults: nat): (seq<View>, bool) {
    var matched := Matched(tools, Owned(rs, taskId), tools.normalize(query));
    var views := ToViews(Take(matched, maxResults));
    (Shrunk(views), |matched| > maxResults || Shrunk(views) != views)
  }

  // ---- one call ----

  datatype Why =
    | AuditUnhealthy | Invalid | Killed | Asleep | Busy | NotAllowed(verdict: Verdict) | Secret | AuditFirst | UnknownId

  datatype Reply =
    | Refused(why: Why)
    | ReadDone(views: seq<View>, truncated: bool)
    | WriteDone(id: Str, kind: MemoryKind)
    | DeleteDone(id: Str)
    | SaveFailed(reason: SaveReason)
    | ContractFailed

  /**
   * What the environment decides: which appends to the audit file succeed, where a save breaks
   * off, and the freshly minted id and time.
   */
  datatype Io = Io(early: bool, auth: bool, started: bool, finished: bool, save: Break, id: Str, now: Str)

  function NewRecord(content: Str, kind: MemoryKind, taskId: Str, epoch: SafeInteger, io: Io): Record {
    Record(io.id, content, kind, io.now, io.now, Ascii("m10-proposal"), taskId, epoch)
  }

  function FirstWith(rs: seq<Record>, id: Str): (r: Option<Record>)
    ensures r.Some? ==> r.value in rs && r.value.id == id
    ensures r.None? ==> forall x | x in rs :: x.id != id
  {
    if rs == [] then None else if rs[0].id == id then Some(rs[0]) else FirstWith(rs[1..], id)
  }

  function RunRead(tools: Tools, s: SessionState, st: State, taskId: Str, query: Str, maxResults: nat, io: Io)
    : (Reply, SessionState, State)
  {
    var s1 := Persist(s, Logged(ExecutionStarted), io.started);
    if !io.started then (Refused(AuditFirst), s1, st)
    else
      var (views, truncated) := Answer(tools, st.records, taskId, query, maxResults);
      if ContractOk(views) then (ReadDone(views, truncated), Persist(s1, Logged(ExecutionCompleted), io.finished), st)
      else (ContractFailed, Persist(s1, Logged(ExecutionFailed), io.finished), st)
  }

  function RunWrite(tools: Tools, s: SessionState, st: State, taskId: Str, content: Str, kind: MemoryKind, io: Io)
    : (Reply, SessionState, State)
  {
    if tools.secretLike(content) then (Refused(Secret), Persist(s, Logged(RequestValidationFailed), io.started), st)
    else
      var s1 := Persist(s, Logged(ExecutionStarted), io.started);
      if !io.started then (Refused(AuditFirst), s1, st)
      else
        var (saved, st1) := Save(st, st.records + [NewRecord(content, kind, taskId, s.epoch, io)], io.save);
        if saved.NotSaved? then (SaveFailed(saved.reason), Persist(s1, Logged(ExecutionFailed), io.finished), st1)
        else if |io.id| > 64 then (ContractFailed, Persist(s1, Logged(ExecutionFailed), io.finished), st1)
        else (WriteDone(io.id, kind), Persist(s1, Logged(ExecutionCompleted), io.finished), st1)
  }

  function RunDelete(s: SessionState, st: State, taskId: Str, memoryId: Str, io: Io): (Reply, SessionState, State) {
    var s1 := Persist(s, Logged(ExecutionStarted), io.started);
    if !io.started then (Refused(AuditFirst), s1, st)
    else
      var target := FirstWith(st.records, memoryId);
      if target.None? || target.value.taskId != taskId then
        (Refused(UnknownId), Persist(s1, Logged(ExecutionRejected), io.finished), st)
      else
        var (saved, st1) := Save(st, WithoutRecord(st.records, memoryId), io.save);
        if saved.NotSaved? then (SaveFailed(saved.reason), Persist(s1, Logged(ExecutionFailed), io.finished), st1)
        else (DeleteDone(memoryId), Persist(s1, Logged(ExecutionCompleted), io.finished), st1)
  }

  function Run(tools: Tools, s: SessionState, st: State, taskId: Str, p: Proposal, io: Io): (Reply, SessionState, State) {
    match p
    case ReadProposal(query, max) => RunRead(tools, s, st, taskId, query, if max.None? then MAX_RESULTS else max.value, io)
    case WriteProposal(content, kind) => RunWrite(tools, s, st, taskId, content, kind, io)
    case DeleteProposal(id) => RunDelete(s, st, taskId, id, io)
  }

  function Decided(policy: Policy, s: SessionState, taskId: Str, p: Proposal): (Verdict, Kind) {
    Outcome(policy, Some(RequestFor(p, taskId)), ContextOf(s))
  }

  /** handleMemoryProposal; an absent proposal is one that no strict schema accepts. */
  function Handle(policy: Policy, tools: Tools, s: SessionState, st: State, inFlight: nat, taskId: Str,
                  proposal: Option<Proposal>, io: Io): (Reply, SessionState, State)
  {
    if !s.healthy then (Refused(AuditUnhealthy), s, st)
    else if proposal.None? || !ProposalOk(proposal.value) then
      (Refused(Invalid), Persist(s, Logged(RequestValidationFailed), io.early), st)
    else if s.killed then (Refused(Killed), Persist(s, Logged(ExecutionRejected), io.early), st)
    else if s.sleep.SLEEP? then (Refused(Asleep), Persist(s, Logged(SleepDenied), io.early), st)
    else if inFlight >= 1 then (Refused(Busy), Persist(s, Logged(ExecutionRejected), io.early), st)
    else
      var (verdict, kind) := Decided(policy, s, taskId, proposal.value);
      var s1 := Persist(s.(log := AppendEvent(s.log, kind, s.sleep)), Logged(kind), io.auth);
      if !verdict.Allow? then (Refused(NotAllowed(verdict)), s1, st)
      else Run(tools, s1, st, taskId, proposal.value, io)
  }

  // ---- the service over the live session and store ----

  class Service {
    const policy: Policy
    const tools: Tools
    const session: SecureSession
    const store: Store
    var memoryInFlight: nat

    constructor (tools: Tools, session: SecureSession, store: Store)
      ensures this.policy == session.policy && this.tools == tools && this.session == session && this.store == store
      ensures memoryInFlight == 0
    {
      this.policy, this.tools, this.session, this.store := session.policy, tools, session, store;
      memoryInFlight := 0;
    }

    method TryAcquireSlot() returns (ok: bool)
      modifies this
      ensures ok <==> old(memoryInFlight) == 0
      ensures memoryInFlight == if ok then 1 else old(memoryInFlight)
    {
      if memoryInFlight >= 1 {
        return false;
      }
      memoryInFlight := memoryInFlight + 1;
      return true;
    }

    method ReleaseSlot()
      modifies this
      ensures memoryInFlight == if old(memoryInFlight) == 0 then 0 else old(memoryInFlight) - 1
    {
      memoryInFlight := if memoryInFlight == 0 then 0 else memoryInFlight - 1;
    }

    method HandleMemoryProposal(taskId: Str, proposal: Option<Proposal>, io: Io) returns (reply: Reply)
      requires session.policy == policy
      modifies this, session, store
      ensures (reply, session.Now(), store.Now())
           == Handle(policy, tools, old(session.Now()), old(store.Now()), old(memoryInFlight), taskId, proposal, io)
      ensures memoryInFlight == old(memoryInFlight)
    {
      hide Outcome, ProposalOk, Run, Payload, Save, Capability, Operation;
      if !session.auditHealthy {
        return Refused(AuditUnhealthy);
      }
      if proposal.None? || !ProposalOk(proposal.value) {
        session.PersistDeed(Logged(RequestValidationFailed), io.early);
        return Refused(Invalid);
      }
      if session.killed {
        session.PersistDeed(Logged(ExecutionRejected), io.early);
        return Refused(Killed);
      }
      if session.sleep != AWAKE {
        session.PersistDeed(Logged(SleepDenied), io.early);
        return Refused(Asleep);
      }
      var acquired := TryAcquireSlot();
      if !acquired {
        session.PersistDeed(Logged(ExecutionRejected), io.early);
        return Refused(Busy);
      }
      var before := |session.log|;
      ghost var kinds := [Decided(policy, session.Now(), taskId, proposal.value).1];
      var decision, newLog := Authorize.Authorize(policy, Some(RequestFor(proposal.value, taskId)),
        Context(session.sleep, session.grants, session.confirmations, session.log));
      session.log := newLog;
      assert kinds[..0] == [];
      var persisted := session.PersistLogDelta(before, [io.auth], kinds);
      if decision.verdict != Allow {
        reply := Refused(NotAllowed(decision.verdict));
      } else {
        if session.killed || session.sleep != AWAKE {
          assert false;  // the call is not interrupted, so the second check finds what the first found
        }
        reply := Dispatch(taskId, proposal.value, io);
      }
      ReleaseSlot();
    }

    method Dispatch(taskId: Str, p: Proposal, io: Io) returns (reply: Reply)
      modifies session, store
      ensures (reply, session.Now(), store.Now()) == Run(tools, old(session.Now()), old(store.Now()), taskId, p, io)
    {
      hide Answer, ContractOk;
      match p
      case ReadProposal(query, max) =>
        session.PersistDeed(Logged(ExecutionStarted), io.started);
        if !io.started {
          return Refused(AuditFirst);
        }
        var views, truncated := Search(taskId, query, if max.None? then MAX_RESULTS else max.value);
        if !ContractOk(views) {
          session.PersistDeed(Logged(ExecutionFailed), io.finished);
          return ContractFailed;
        }
        session.PersistDeed(Logged(ExecutionCompleted), io.finished);
        return ReadDone(views, truncated);
      case WriteProposal(content, kind) =>
        if tools.secretLike(content) {
          session.PersistDeed(Logged(RequestValidationFailed), io.started);
          return Refused(Secret);
        }
        session.PersistDeed(Logged(ExecutionStarted), io.started);
        if !io.started {
          return Refused(AuditFirst);
        }
        var record := NewRecord(content, kind, taskId, session.epoch, io);
        var saved := store.SaveMemoryStore(store.records + [record], io.save);
        if saved != Saved {
          session.PersistDeed(Logged(ExecutionFailed), io.finished);
          return SaveFailed(saved.reason);
        }
        if |record.id| > 64 {
          session.PersistDeed(Logged(ExecutionFailed), io.finished);
          return ContractFailed;
        }
        session.PersistDeed(Logged(ExecutionCompleted), io.finished);
        return WriteDone(record.id, kind);
      case DeleteProposal(memoryId) =>
        session.PersistDeed(Logged(ExecutionStarted), io.started);
        if !io.started {
          return Refused(AuditFirst);
        }
        var target := FirstWith(store.records, memoryId);
        if target.None? || target.value.taskId != taskId {
          session.PersistDeed(Logged(ExecutionRejected), io.finished);
          return Refused(UnknownId);
        }
        var saved := store.SaveMemoryStore(WithoutRecord(store.records, memoryId), io.save);
        if saved != Saved {
          session.PersistDeed(Logged(ExecutionFailed), io.finished);
          return SaveFailed(saved.reason);
        }
        session.PersistDeed(Logged(ExecutionCompleted), io.finished);
        return DeleteDone(memoryId);
    }

    /** The matching records of one task, cut to the result limit and then to the payload limit. */
    method Search(taskId: Str, query: Str, maxResults: nat) returns (views: seq<View>, truncated: bool)
      ensures (views, truncated) == Answer(tools, store.records, taskId, query, maxResults)
    {
      hide ViewBytes;
      var owned := Owned(store.records, taskId);
      var matched := Matched(tools, owned, tools.normalize(query));
      truncated := |matched| > maxResults;
      views := ToViews(Take(matched, maxResults));
      ghost var all := views;
      while ViewBytes(views) > MAX_PAYLOAD_BYTES && views != []
        invariant views <= all && Shrunk(views) == Shrunk(all)
        invariant truncated <==> |matched| > maxResults || views != all
        decreases |views|
      {
        truncated := true;
        views := views[..|views| - 1];
      }
    }
  }
}
