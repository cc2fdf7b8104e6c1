/** What a finished memory call has read, written or removed, record by record and field by field. */
module MemoryAnswers {
  import opened Text
  import opened Sequences
  import opened Kernel
  import opened JsonStringify
  import opened Authorize
  import opened Entitlement
  import opened Session
  import opened Replacement
  import opened MemoryStore
  import opened MemoryService
  import opened MemoryGuarantees

  // ---- which records match, and where they stand ----

  /** A record of the task whose normalised content has the normalised query somewhere in it. */
  predicate Hit(tools: Tools, r: Record, taskId: Str, query: Str) {
    r.taskId == taskId && Occurs(tools.normalize(r.content), tools.normalize(query))
  }

  predicate Occurs(hay: Str, needle: Str) {
    exists i, j | 0 <= i <= j <= |hay| :: hay[i..j] == needle
  }

  lemma OccursExactly(hay: Str, needle: Str)
    ensures Includes(hay, needle) <==> Occurs(hay, needle)
  {
    if Includes(hay, needle) {
      var i :| 0 <= i <= |hay| && needle <= hay[i..];
      assert hay[i..][..|needle|] == hay[i..i + |needle|];
    }
    if Occurs(hay, needle) {
      var i, j :| 0 <= i <= j <= |hay| && hay[i..j] == needle;
      assert hay[i..][..j - i] == hay[i..j];
    }
  }

  /** Increasing places of a list, each of which holds a hit. */
  predicate Places(tools: Tools, rs: seq<Record>, taskId: Str, query: Str, places: seq<nat>) {
    && (forall k | 0 <= k < |places| :: places[k] < |rs| && Hit(tools, rs[places[k]], taskId, query))
    && forall j, k | 0 <= j < k < |places| :: places[j] < places[k]
  }

  predicate AllHits(tools: Tools, rs: seq<Record>, taskId: Str, query: Str, places: seq<nat>) {
    forall i | 0 <= i < |rs| :: Hit(tools, rs[i], taskId, query) ==> i in places
  }

  function Selection(tools: Tools, rs: seq<Record>, taskId: Str, query: Str): seq<Record> {
    Matched(tools, Owned(rs, taskId), tools.normalize(query))
  }

  lemma SelectionLast(tools: Tools, rs: seq<Record>, r: Record, taskId: Str, query: Str)
    ensures Selection(tools, rs + [r], taskId, query)
         == Selection(tools, rs, taskId, query) + if Hit(tools, r, taskId, query) then [r] else []
  {
    hide Includes, Occurs, Owned, Matched;
    OwnedConcat(rs, [r], taskId);
    OwnedOne(r, taskId);
    OccursExactly(tools.normalize(r.content), tools.normalize(query));
    MatchedOne(tools, r, tools.normalize(query));
    if r.taskId == taskId {
      MatchedConcat(tools, Owned(rs, taskId), [r], tools.normalize(query));
    } else {
      assert Owned(rs, taskId) + [] == Owned(rs, taskId);
    }
  }

  lemma OwnedOne(r: Record, taskId: Str)
    ensures Owned([r], taskId) == if r.taskId == taskId then [r] else []
  {
    assert [r][1..] == [];
  }

  lemma MatchedOne(tools: Tools, r: Record, needle: Str)
    ensures Matched(tools, [r], needle) == if Includes(tools.normalize(r.content), needle) then [r] else []
  {
    hide Includes;
    assert [r][1..] == [];
  }

  lemma {:induction false} MatchedConcat(tools: Tools, a: seq<Record>, b: seq<Record>, needle: Str)
    ensures Matched(tools, a + b, needle) == Matched(tools, a, needle) + Matched(tools, b, needle)
    decreases |a|
  {
    hide Includes;
    if a == [] {
      assert a + b == b;
    } else {
      MatchedConcat(tools, a[1..], b, needle);
      assert (a + b)[1..] == a[1..] + b && (a + b)[0] == a[0];
      var head: seq<Record> := if Includes(tools.normalize(a[0].content), needle) then [a[0]] else [];
      assert head + (Matched(tools, a[1..], needle) + Matched(tools, b, needle)) == (head + Matched(tools, a[1..], needle)) + Matched(tools, b, needle);
    }
  }

  lemma {:induction false} SelectionPlaces(tools: Tools, rs: seq<Record>, taskId: Str, query: Str) returns (places: seq<nat>)
    ensures Places(tools, rs, taskId, query, places) && AllHits(tools, rs, taskId, query, places)
    ensures |places| == |Selection(tools, rs, taskId, query)|
    ensures forall k | 0 <= k < |places| :: Selection(tools, rs, taskId, query)[k] == rs[places[k]]
    decreases |rs|
  {
    hide Hit, Selection;
    if rs == [] {
      places := [];
      NothingSelected(tools, taskId, query);
    } else {
      var n := |rs| - 1;
      places := SelectionPlaces(tools, rs[..n], taskId, query);
      SelectionLast(tools, rs[..n], rs[n], taskId, query);
      assert rs == rs[..n] + [rs[n]];
      if Hit(tools, rs[n], taskId, query) {
        places := places + [n];
      }
      forall i | 0 <= i < |rs| && Hit(tools, rs[i], taskId, query) ensures i in places {
        if i < n {
          assert rs[..n][i] == rs[i];
        } else {
          assert places[|places| - 1] == n;
        }
      }
    }
  }

  lemma NothingSelected(tools: Tools, taskId: Str, query: Str)
    ensures Selection(tools, [], taskId, query) == []
  {
  }

  // ---- reading ----

  /**
   * A finished read shows the first hits of the store in their order, field by field, and says
   * truncated exactly when it does not show all of them.
   */
  lemma ReadShows(policy: Policy, tools: Tools, s: SessionState, st: State, inFlight: nat, taskId: Str,
                  query: Str, maxResults: Option<nat>, io: Io) returns (places: seq<nat>)
    requires Handle(policy, tools, s, st, inFlight, taskId, Some(ReadProposal(query, maxResults)), io).0.ReadDone?
    ensures var (reply, _, after) := Handle(policy, tools, s, st, inFlight, taskId, Some(ReadProposal(query, maxResults)), io);
            && after == st
            && Places(tools, st.records, taskId, query, places) && AllHits(tools, st.records, taskId, query, places)
            && |reply.views| <= |places| && |reply.views| <= (if maxResults.Some? then maxResults.value else 20)
            && (forall k | 0 <= k < |reply.views| ::
                  var (v, r) := (reply.views[k], st.records[places[k]]);
                  v.id == r.id && v.kind == r.kind && v.content == r.content && v.createdAt == r.createdAt && v.taskId == taskId)
            && (reply.truncated <==> |reply.views| < |places|)
  {
    hide Decided, ProposalOk, Selection, ContractOk, ViewBytes, Shrunk, Places, AllHits, ToViews;
    places := SelectionPlaces(tools, st.records, taskId, query);
    var limit := if maxResults.Some? then maxResults.value else 20;
    AnswerShows(tools, st.records, taskId, query, limit, places);
  }

  lemma AnswerShows(tools: Tools, rs: seq<Record>, taskId: Str, query: Str, limit: nat, places: seq<nat>)
    requires Places(tools, rs, taskId, query, places) && |places| == |Selection(tools, rs, taskId, query)|
    requires forall k | 0 <= k < |places| :: Selection(tools, rs, taskId, query)[k] == rs[places[k]]
    ensures var (views, truncated) := Answer(tools, rs, taskId, query, limit);
            && |views| <= |places| && |views| <= limit
            && (forall k | 0 <= k < |views| ::
                  var (v, r) := (views[k], rs[places[k]]);
                  v.id == r.id && v.kind == r.kind && v.content == r.content && v.createdAt == r.createdAt && v.taskId == taskId)
            && (truncated <==> |views| < |places|)
  {
    hide Hit, ViewBytes, Shrunk, Matched, Owned;
    var selected := Selection(tools, rs, taskId, query);
    ToViewsAt(Take(selected, limit));
    forall k | 0 <= k < |places| ensures rs[places[k]].taskId == taskId {
      HitIsOwned(tools, rs[places[k]], taskId, query);
    }
  }

  lemma HitIsOwned(tools: Tools, r: Record, taskId: Str, query: Str)
    requires Hit(tools, r, taskId, query)
    ensures r.taskId == taskId
  {
  }

  // ---- writing and deleting ----

  /** What is asked of a proposal: sizes in units and code points, no control characters, and plain ids. */
  lemma ProposalExactly(p: Proposal)
    ensures ProposalOk(p) <==>
              match p
              case ReadProposal(query, max) =>
                && 1 <= |query| <= 576 && 1 <= CodePoints(query) <= 256 && (forall i | 0 <= i < |query| :: query[i] >= 0x20 && query[i] != 0x7F)
                && (max.None? || 1 <= max.value <= 20)
              case WriteProposal(content, _) =>
                1 <= |content| <= 8448 && 1 <= CodePoints(content) <= 4096 && forall i | 0 <= i < |content| :: content[i] >= 0x20 && content[i] != 0x7F
              case DeleteProposal(id) =>
                1 <= |id| <= 64 && forall i | 0 <= i < |id| :: id[i] in LOWER_CASE || id[i] in UPPER_CASE || id[i] in DIGITS || id[i] in Ascii("_-")
  {
    hide CodePoints;
    assert Ascii("_-") == [0x5F, 0x2D];
    if p.DeleteProposal? {
      forall u: CodeUnit
        ensures MemoryService.IdUnit(u) <==> u in LOWER_CASE || u in UPPER_CASE || u in DIGITS || u in Ascii("_-")
      {
        LowerLetters(u);
        UpperLetters(u);
        DigitLetters(u);
      }
      hide MemoryService.IdUnit;
    }
  }

  /** Which files open, and what the others lack. */
  lemma OpensExactly(env: MemoryStore.Env, main: Option<Str>, rs: seq<Record>)
    ensures Open(env, main) == Opened(rs) <==>
              if main.None? then rs == []
              else
                && env.parse(main.value) == Shape(rs) && |rs| <= 1000 && Utf8Length(main.value) <= 4 * 1024 * 1024
                && forall r | r in rs ::
                     && 1 <= |r.id| <= 64 && |r.content| <= 4128 && 1 <= |r.source| <= 64 && 1 <= |r.taskId| <= 128 && r.epoch >= 1
                     && env.isDatetime(r.createdAt) && env.isDatetime(r.updatedAt)
    ensures Open(env, main) == NotOpened(InvalidJson) <==> main.Some? && env.parse(main.value).NotJson?
  {
    hide Utf8Length;
  }

  /** The bounds of the store: at most 1000 records of at most 8 KiB each, and 4 MiB in all, in this order. */
  lemma BoundsExactly(rs: seq<Record>)
    ensures var few := |rs| <= 1000;
            var small := few && forall r | r in rs :: Utf8Length(Stringify(RecordFields(r))) <= 8192;
            var fits := small && Utf8Length(Payload(rs)) <= 4 * 1024 * 1024;
            && (BoundBroken(rs) == Some(TooManyRecords) <==> !few)
            && (BoundBroken(rs) == Some(RecordTooLarge) <==> few && !small)
            && (BoundBroken(rs) == Some(StoreTooLarge) <==> small && !fits)
            && (BoundBroken(rs).None? <==> fits)
  {
    hide Utf8Length, Payload, RecordFields;
  }

  /** Everything that stands between a proposal and its operation. */
  ghost predicate Passes(policy: Policy, s: SessionState, inFlight: nat, taskId: Str, p: Proposal, capability: string, operation: string, io: Io)
    requires forall i | 0 <= i < |capability| :: capability[i] < 128 as char
    requires forall i | 0 <= i < |operation| :: operation[i] < 128 as char
  {
    && s.healthy && ProposalOk(p) && !s.killed && s.sleep == AWAKE && inFlight == 0 && io.started
    && var req := Request(Ascii(capability), Ascii(operation), None, Some(taskId), None);
       exists def :: Entitled(policy, req, ContextOf(s), def) && Endorsed(req, ContextOf(s), def)
  }

  lemma PassesExactly(policy: Policy, s: SessionState, inFlight: nat, taskId: Str, p: Proposal, io: Io)
    ensures var (capability, operation) :=
              match p case ReadProposal(_, _) => ("memory.read", "read") case WriteProposal(_, _) => ("memory.write", "write")
                      case DeleteProposal(_) => ("memory.delete", "delete");
            Passes(policy, s, inFlight, taskId, p, capability, operation, io) <==>
              && s.healthy && ProposalOk(p) && !s.killed && s.sleep == AWAKE && inFlight == 0 && io.started
              && Decided(policy, s, taskId, p).0.Allow?
  {
    hide Outcome, ProposalOk, Entitled, Endorsed, IsLegacy;
    NotLegacy(p);
    AllowedExactly(policy, RequestFor(p, taskId), ContextOf(s));
  }

  /** A call is refused for the first of these reasons that holds. */
  lemma RefusedExactly(policy: Policy, tools: Tools, s: SessionState, st: State, inFlight: nat, taskId: Str,
                       proposal: Option<Proposal>, io: Io)
    ensures var reply := Handle(policy, tools, s, st, inFlight, taskId, proposal, io).0;
            var valid := s.healthy && proposal.Some? && ProposalOk(proposal.value);
            var free := valid && !s.killed && s.sleep == AWAKE && inFlight == 0;
            && (reply == Refused(AuditUnhealthy) <==> !s.healthy)
            && (reply == Refused(Invalid) <==> s.healthy && !valid)
            && (reply == Refused(Killed) <==> valid && s.killed)
            && (reply == Refused(Asleep) <==> valid && !s.killed && s.sleep == SLEEP)
            && (reply == Refused(Busy) <==> valid && !s.killed && s.sleep == AWAKE && inFlight > 0)
            && ((reply.Refused? && reply.why.NotAllowed?) <==> free && !Decided(policy, s, taskId, proposal.value).0.Allow?)
  {
    hide Decided, ProposalOk, Answer, ContractOk, Save, FirstWith, NewRecord, WithoutRecord;
  }

  lemma ReadDoneExactly(policy: Policy, tools: Tools, s: SessionState, st: State, inFlight: nat, taskId: Str,
                        query: Str, maxResults: Option<nat>, io: Io)
    ensures var p := ReadProposal(query, maxResults);
            var reply := Handle(policy, tools, s, st, inFlight, taskId, Some(p), io).0;
            reply.ReadDone? || reply.ContractFailed? <==> Passes(policy, s, inFlight, taskId, p, "memory.read", "read", io)
  {
    hide Decided, ProposalOk, Passes, Answer, ContractOk;
    PassesExactly(policy, s, inFlight, taskId, ReadProposal(query, maxResults), io);
  }

  /**
   * A write is finished exactly when it passes every gate, is not taken for a secret, keeps the
   * bounds and is saved; then the store has one more record, with just the proposed content.
   */
  lemma WriteDoneExactly(policy: Policy, tools: Tools, s: SessionState, st: State, inFlight: nat, taskId: Str,
                         content: Str, kind: MemoryKind, io: Io)
    requires |io.id| <= 64
    ensures var p := WriteProposal(content, kind);
            var (reply, _, after) := Handle(policy, tools, s, st, inFlight, taskId, Some(p), io);
            var record := Record(io.id, content, kind, io.now, io.now, Ascii("m10-proposal"), taskId, s.epoch);
            && (reply.WriteDone? <==>
                  && Passes(policy, s, inFlight, taskId, p, "memory.write", "write", io)
                  && !tools.secretLike(content) && BoundBroken(st.records + [record]).None? && io.save.Smooth?)
            && (reply.WriteDone? ==> reply.id == io.id && reply.kind == kind && after.records == st.records + [record])
            && (!reply.WriteDone? ==> after.records == st.records && after.disk.main == st.disk.main)
  {
    hide Decided, ProposalOk, Passes, BoundBroken, Payload;
    PassesExactly(policy, s, inFlight, taskId, WriteProposal(content, kind), io);
  }

  /** The kinds of event that a call records, when every append succeeds, by its reply; the first is the authorization's. */
  function Told(reply: Reply, authorization: Kind): seq<Kind> {
    match reply
    case Refused(why) =>
      (match why
       case AuditUnhealthy => []
       case Invalid => [RequestValidationFailed]
       case Killed | Busy => [ExecutionRejected]
       case Asleep => [SleepDenied]
       case NotAllowed(_) => [authorization]
       case Secret => [authorization, RequestValidationFailed]
       case AuditFirst => [authorization]
       case UnknownId => [authorization, ExecutionStarted, ExecutionRejected])
    case ReadDone(_, _) | WriteDone(_, _) | DeleteDone(_) => [authorization, ExecutionStarted, ExecutionCompleted]
    case SaveFailed(_) | ContractFailed => [authorization, ExecutionStarted, ExecutionFailed]
  }

  predicate RecordedAs(before: seq<Durable>, after: seq<Durable>, s: SessionState, kinds: seq<Kind>) {
    && |after| == |before| + |kinds| && before <= after
    && forall i | 0 <= i < |kinds| :: after[|before| + i] == Durable(s.epoch, s.sleep, Logged(kinds[i]))
  }

  /** The durable trail tells the reply, and the log has the authorization event. */
  lemma TrailTellsReply(policy: Policy, tools: Tools, s: SessionState, st: State, inFlight: nat, taskId: Str,
                        proposal: Option<Proposal>, io: Io)
    requires io.early && io.auth && io.started && io.finished
    ensures var (reply, t, _) := Handle(policy, tools, s, st, inFlight, taskId, proposal, io);
            var kind := if proposal.None? then RequestValidationFailed else Decided(policy, s, taskId, proposal.value).1;
            && RecordedAs(s.trail, t.trail, s, Told(reply, kind)) && t.healthy == s.healthy
            && (t.log == s.log || t.log == s.log + [LogEvent(|s.log| + 1, kind, s.sleep)])
  {
    hide Decided, ProposalOk, Answer, ContractOk, Save, FirstWith, NewRecord, WithoutRecord;
  }

  /** In a store with distinct ids a finished deletion takes out the one record of the caller with this id, and no other call does. */
  lemma DeleteDoneExactly(policy: Policy, tools: Tools, s: SessionState, st: State, inFlight: nat, taskId: Str, id: Str, io: Io, i: nat)
    requires UniqueIds(st.records) && i < |st.records| && st.records[i].id == id
    ensures var p := DeleteProposal(id);
            var (reply, _, after) := Handle(policy, tools, s, st, inFlight, taskId, Some(p), io);
            var rest := st.records[..i] + st.records[i + 1..];
            && (reply.DeleteDone? <==>
                  && Passes(policy, s, inFlight, taskId, p, "memory.delete", "delete", io)
                  && st.records[i].taskId == taskId && BoundBroken(rest).None? && io.save.Smooth?)
            && (reply.DeleteDone? ==> reply.id == id && after.records == rest)
            && (!reply.DeleteDone? ==> after.records == st.records && after.disk.main == st.disk.main)
  {
    hide Decided, ProposalOk, Passes, BoundBroken, Payload, WithoutRecord, FirstWith, UniqueIds;
    PassesExactly(policy, s, inFlight, taskId, DeleteProposal(id), io);
    WithoutPlace(st.records, id, i);
    FirstPlace(st.records, id, i);
  }

  lemma FirstPlace(rs: seq<Record>, id: Str, i: nat)
    requires UniqueIds(rs) && i < |rs| && rs[i].id == id
    ensures FirstWith(rs, id) == Some(rs[i])
  {
    assert rs[i] in rs;
    var r := FirstWith(rs, id);
    var j :| 0 <= j < |rs| && rs[j] == r.value;
  }

  lemma UniqueRest(rs: seq<Record>)
    requires UniqueIds(rs) && rs != []
    ensures UniqueIds(rs[1..]) && forall r | r in rs[1..] :: r.id != rs[0].id
  {
  }

  lemma {:induction false} WithoutPlace(rs: seq<Record>, id: Str, i: nat)
    requires UniqueIds(rs) && i < |rs| && rs[i].id == id
    ensures WithoutRecord(rs, id) == rs[..i] + rs[i + 1..]
    decreases |rs|
  {
    hide UniqueIds, WithoutRecord;
    var rest := rs[1..];
    UniqueRest(rs);
    assert rs == [rs[0]] + rest;
    WithoutFirst(rs[0], rest, id);
    if i == 0 {
      WithoutNothing(rest, id);
      assert rs[..0] + rs[1..] == rest;
    } else {
      assert rest[i - 1] == rs[i] && rs[i] in rest;
      WithoutPlace(rest, id, i - 1);
      assert [rs[0]] + (rest[..i - 1] + rest[i..]) == rs[..i] + rs[i + 1..];
    }
  }
}
