/** What tasks can learn of each other and do to each other through the shared memory store. */
module MemoryGuarantees {
  import opened Text
  import opened Sequences
  import opened Kernel
  import opened Authorize
  import opened Session
  import opened MemoryStore
  import opened MemoryService

  // ---- the record lists ----

  predicate UniqueIds(rs: seq<Record>) { forall i, j | 0 <= i < j < |rs| :: rs[i].id != rs[j].id }

  lemma {:induction false} OwnedConcat(a: seq<Record>, b: seq<Record>, taskId: Str)
    ensures Owned(a + b, taskId) == Owned(a, taskId) + Owned(b, taskId)
    decreases |a|
  {
    if a == [] {
      assert a + b == b;
    } else {
      OwnedConcat(a[1..], b, taskId);
      assert (a + b)[1..] == a[1..] + b && (a + b)[0] == a[0];
      var head: seq<Record> := if a[0].taskId == taskId then [a[0]] else [];
      assert head + (Owned(a[1..], taskId) + Owned(b, taskId)) == (head + Owned(a[1..], taskId)) + Owned(b, taskId);
    }
  }

  lemma {:induction false} OwnedOwns(rs: seq<Record>, taskId: Str)
    ensures forall r :: r in Owned(rs, taskId) <==> r in rs && r.taskId == taskId
  {
    if rs == [] {
    } else {
      OwnedOwns(rs[1..], taskId);
      assert rs == [rs[0]] + rs[1..];
    }
  }

  lemma OwnedFirst(r: Record, rs: seq<Record>, taskId: Str)
    ensures Owned([r] + rs, taskId) == if r.taskId == taskId then [r] + Owned(rs, taskId) else Owned(rs, taskId)
  {
    assert ([r] + rs)[1..] == rs && [] + Owned(rs, taskId) == Owned(rs, taskId);
  }

  lemma WithoutFirst(r: Record, rs: seq<Record>, id: Str)
    ensures WithoutRecord([r] + rs, id) == if r.id == id then WithoutRecord(rs, id) else [r] + WithoutRecord(rs, id)
  {
    assert ([r] + rs)[1..] == rs;
  }

  lemma {:induction false} WithoutOwned(rs: seq<Record>, id: Str, taskId: Str)
    ensures Owned(WithoutRecord(rs, id), taskId) == WithoutRecord(Owned(rs, taskId), id)
  {
    if rs == [] {
    } else {
      hide Owned, WithoutRecord;
      var first, rest := rs[0], rs[1..];
      assert rs == [first] + rest;
      WithoutOwned(rest, id, taskId);
      OwnedFirst(first, rest, taskId);
      OwnedFirst(first, WithoutRecord(rest, id), taskId);
      WithoutFirst(first, rest, id);
      WithoutFirst(first, Owned(rest, taskId), id);
    }
  }

  lemma {:induction false} WithoutNothing(rs: seq<Record>, id: Str)
    ensures WithoutRecord(rs, id) == rs <==> forall r | r in rs :: r.id != id
  {
    if rs == [] {
    } else {
      WithoutNothing(rs[1..], id);
      assert rs == [rs[0]] + rs[1..];
      if rs[0].id != id {
        assert WithoutRecord(rs, id)[1..] == WithoutRecord(rs[1..], id);
      } else {
        WithoutShrinks(rs[1..], id);
      }
    }
  }

  lemma {:induction false} WithoutUnique(rs: seq<Record>, id: Str)
    requires UniqueIds(rs)
    ensures UniqueIds(WithoutRecord(rs, id))
  {
    if rs == [] {
    } else {
      WithoutUnique(rs[1..], id);
      WithoutMembers(rs[1..], id);
      var tail := WithoutRecord(rs[1..], id);
      if rs[0].id != id {
        forall r | r in tail ensures r.id != rs[0].id {
          assert r in rs[1..];
        }
      }
    }
  }

  /**
   * Deleting an id leaves the records of another task alone exactly when none of them bears that
   * id, which unique ids give.
   */
  lemma DeletionSparesExactly(rs: seq<Record>, id: Str, other: Str)
    ensures Owned(WithoutRecord(rs, id), other) == Owned(rs, other) <==>
              forall r | r in rs && r.taskId == other :: r.id != id
    ensures UniqueIds(rs) && FirstWith(rs, id).Some? && FirstWith(rs, id).value.taskId != other ==>
              Owned(WithoutRecord(rs, id), other) == Owned(rs, other)
  {
    WithoutOwned(rs, id, other);
    WithoutNothing(Owned(rs, other), id);
    OwnedOwns(rs, other);
    if UniqueIds(rs) && FirstWith(rs, id).Some? && FirstWith(rs, id).value.taskId != other {
      var first := FirstWith(rs, id).value;
      forall r | r in rs && r.taskId == other ensures r.id != id {
        var i :| 0 <= i < |rs| && rs[i] == r;
        var j :| 0 <= j < |rs| && rs[j] == first;
      }
    }
  }

  // ---- reading and deleting learn nothing of others ----

  /** What a reply may depend on in the session: not the log and not the trail. */
  predicate SameStanding(s: SessionState, t: SessionState) {
    && s.epoch == t.epoch && s.sleep == t.sleep && s.killed == t.killed && s.grants == t.grants
    && s.confirmations == t.confirmations && s.healthy == t.healthy
  }

  lemma SameDecision(policy: Policy, s: SessionState, t: SessionState, taskId: Str, p: Proposal)
    requires SameStanding(s, t)
    ensures Decided(policy, s, taskId, p) == Decided(policy, t, taskId, p)
  {
    hide IsLegacy, Lookup, HasLive, HasRevoked, HasScope, NeedsConfirmation, KeyOf;
  }

  /** A read tells nothing about other tasks' records: stores that agree on the reader's own give one reply. */
  lemma ReadSeesOwnOnly(policy: Policy, tools: Tools, s: SessionState, t: SessionState, st: State, su: State, inFlight: nat,
                        taskId: Str, query: Str, maxResults: Option<nat>, io: Io)
    requires SameStanding(s, t) && Owned(st.records, taskId) == Owned(su.records, taskId)
    ensures var p := Some(ReadProposal(query, maxResults));
            var (a, b) := (Handle(policy, tools, s, st, inFlight, taskId, p, io), Handle(policy, tools, t, su, inFlight, taskId, p, io));
            a.0 == b.0 && a.2 == st && b.2 == su && (s == t ==> a.1 == b.1)
  {
    hide Decided, ProposalOk, ContractOk, Matched, Shrunk, Owned;
    SameDecision(policy, s, t, taskId, ReadProposal(query, maxResults));
  }

  predicate NotOwn(st: State, taskId: Str, id: Str) {
    FirstWith(st.records, id).None? || FirstWith(st.records, id).value.taskId != taskId
  }

  /** There is no existence oracle: a foreign id and an unknown id are answered alike, and nothing changes. */
  lemma ForeignIdIsUnknown(policy: Policy, tools: Tools, s: SessionState, st: State, inFlight: nat, taskId: Str,
                           foreign: Str, unknown: Str, io: Io)
    requires NotOwn(st, taskId, foreign) && FirstWith(st.records, unknown).None?
    requires ProposalOk(DeleteProposal(foreign)) && ProposalOk(DeleteProposal(unknown))
    ensures Handle(policy, tools, s, st, inFlight, taskId, Some(DeleteProposal(foreign)), io)
         == Handle(policy, tools, s, st, inFlight, taskId, Some(DeleteProposal(unknown)), io)
    ensures Handle(policy, tools, s, st, inFlight, taskId, Some(DeleteProposal(foreign)), io).2 == st
  {
    hide Outcome, FirstWith, ProposalOk;
    assert RequestFor(DeleteProposal(foreign), taskId) == RequestFor(DeleteProposal(unknown), taskId);
  }

  /** A write learns of other tasks only whether the store still has room and whether the disk failed. */
  lemma WriteSeesOnlyRoom(policy: Policy, tools: Tools, s: SessionState, st: State, su: State, inFlight: nat,
                          taskId: Str, content: Str, kind: MemoryKind, io: Io)
    requires var r := NewRecord(content, kind, taskId, s.epoch, io);
             BoundBroken(st.records + [r]) == BoundBroken(su.records + [r])
    ensures var p := Some(WriteProposal(content, kind));
            var (a, b) := (Handle(policy, tools, s, st, inFlight, taskId, p, io), Handle(policy, tools, s, su, inFlight, taskId, p, io));
            a.0 == b.0 && a.1 == b.1
  {
    hide Decided, ProposalOk, BoundBroken, NewRecord, Payload, PersistAll;
  }

  // ---- what a call changes ----

  /** The records after a call, in terms of the records before it. */
  lemma RecordsAfter(policy: Policy, tools: Tools, s: SessionState, st: State, inFlight: nat, taskId: Str,
                     proposal: Option<Proposal>, io: Io)
    ensures var (reply, s', st') := Handle(policy, tools, s, st, inFlight, taskId, proposal, io);
            if st'.records == st.records then true
            else
              && proposal.Some? && ProposalOk(proposal.value) && s.healthy && !s.killed && s.sleep.AWAKE? && inFlight == 0
              && Decided(policy, s, taskId, proposal.value).0.Allow? && io.started
              && BoundBroken(st'.records).None? && st'.disk.main == Some(Payload(st'.records))
              && match proposal.value
                 case ReadProposal(_, _) => false
                 case WriteProposal(content, kind) =>
                   !tools.secretLike(content) && st'.records == st.records + [NewRecord(content, kind, taskId, s.epoch, io)]
                 case DeleteProposal(id) => !NotOwn(st, taskId, id) && st'.records == WithoutRecord(st.records, id)
  {
    hide Decided, ProposalOk, BoundBroken, NewRecord, Payload, FirstWith, WithoutRecord, Answer, ContractOk;
  }

  /** A change of the store needs a live grant of that task for that capability, in an awake, healthy session. */
  lemma ChangeIsAuthorized(policy: Policy, tools: Tools, s: SessionState, st: State, inFlight: nat, taskId: Str,
                           proposal: Option<Proposal>, io: Io)
    requires Handle(policy, tools, s, st, inFlight, taskId, proposal, io).2.records != st.records
    ensures proposal.Some? && HasLive(s.grants, taskId, Capability(proposal.value))
    ensures s.healthy && !s.killed && s.sleep.AWAKE?
    ensures Durable(s.epoch, s.sleep, Logged(ExecutionStarted)) in Handle(policy, tools, s, st, inFlight, taskId, proposal, io).1.trail
  {
    hide Decided, Answer, ContractOk, Save, FirstWith, NewRecord, WithoutRecord, BoundBroken, Payload, NotOwn, ProposalOk;
    RecordsAfter(policy, tools, s, st, inFlight, taskId, proposal, io);
    AllowedHasGrant(policy, s, taskId, proposal.value);
  }

  lemma AllowedHasGrant(policy: Policy, s: SessionState, taskId: Str, p: Proposal)
    requires Decided(policy, s, taskId, p).0.Allow?
    ensures HasLive(s.grants, taskId, Capability(p))
  {
    hide HasLive, HasRevoked, HasScope, Lookup, NeedsConfirmation, KeyOf, IsLegacy;
    NotLegacy(p);
  }

  lemma NotLegacy(p: Proposal)
    ensures !IsLegacy(Capability(p))
  {
    hide IsLegacy;
    LegacyIds(Capability(p));
    assert Capability(p)[0] == 'm' as int;
    assert SYSTEM_SLEEP[0] == 's' as int && AUDIT_APPEND[0] == 'a' as int && AUDIT_READ[0] == 'a' as int;
  }

  /**
   * The store does not wait for the audit file: a call does the same to it whether or not its
   * authorization event could be written. Only the start event is waited for.
   */
  lemma StoreIgnoresLostAuthorization(policy: Policy, tools: Tools, s: SessionState, st: State, inFlight: nat, taskId: Str,
                                      proposal: Option<Proposal>, io: Io)
    ensures Handle(policy, tools, s, st, inFlight, taskId, proposal, io.(auth := false)).2
         == Handle(policy, tools, s, st, inFlight, taskId, proposal, io).2
    ensures !io.started ==> Handle(policy, tools, s, st, inFlight, taskId, proposal, io).2 == st
  {
    hide Decided, Answer, ContractOk, Save, FirstWith, WithoutRecord, ProposalOk;
  }

  /** No call of one task removes, alters or adds a record of another, and ids stay unique. */
  lemma OthersUntouched(policy: Policy, tools: Tools, s: SessionState, st: State, inFlight: nat, taskId: Str,
                        proposal: Option<Proposal>, io: Io, other: Str)
    requires UniqueIds(st.records) && (forall r | r in st.records :: r.id != io.id) && other != taskId
    ensures var after := Handle(policy, tools, s, st, inFlight, taskId, proposal, io).2.records;
            Owned(after, other) == Owned(st.records, other) && UniqueIds(after)
  {
    hide Handle, FirstWith, Payload, Decided, ProposalOk, BoundBroken;
    RecordsAfter(policy, tools, s, st, inFlight, taskId, proposal, io);
    var after := Handle(policy, tools, s, st, inFlight, taskId, proposal, io).2.records;
    if after != st.records {
      match proposal.value
      case ReadProposal(_, _) =>
      case WriteProposal(content, kind) =>
        OwnedConcat(st.records, [NewRecord(content, kind, taskId, s.epoch, io)], other);
      case DeleteProposal(id) =>
        DeletionSparesExactly(st.records, id, other);
        WithoutUnique(st.records, id);
    }
  }

  // ---- whole runs ----

  datatype Call = Call(taskId: Str, proposal: Option<Proposal>, io: Io)

  function RunCalls(policy: Policy, tools: Tools, s: SessionState, st: State, calls: seq<Call>): (SessionState, State) {
    if calls == [] then (s, st)
    else
      var n := |calls| - 1;
      var (s1, st1) := RunCalls(policy, tools, s, st, calls[..n]);
      var (_, s2, st2) := Handle(policy, tools, s1, st1, 0, calls[n].taskId, calls[n].proposal, calls[n].io);
      (s2, st2)
  }

  /** The minted ids are fresh: none is in the store yet and none is minted twice. */
  predicate FreshIds(rs: seq<Record>, calls: seq<Call>) {
    && (forall i | 0 <= i < |calls| :: forall r | r in rs :: r.id != calls[i].io.id)
    && (forall i, j | 0 <= i < j < |calls| :: calls[i].io.id != calls[j].io.id)
  }

  lemma StandingKept(policy: Policy, tools: Tools, s: SessionState, st: State, taskId: Str, proposal: Option<Proposal>, io: Io)
    ensures var t := Handle(policy, tools, s, st, 0, taskId, proposal, io).1;
            SameStanding(s.(healthy := t.healthy), t) && (t.healthy ==> s.healthy)
  {
    hide Decided, ProposalOk, Run;
    if proposal.Some? {
      var (_, kind) := Decided(policy, s, taskId, proposal.value);
      RunStanding(tools, Persist(s.(log := AppendEvent(s.log, kind, s.sleep)), Logged(kind), io.auth), st, taskId, proposal.value, io);
    }
  }

  lemma RunStanding(tools: Tools, s: SessionState, st: State, taskId: Str, p: Proposal, io: Io)
    ensures var t := Run(tools, s, st, taskId, p, io).1;
            SameStanding(s.(healthy := t.healthy), t) && (t.healthy ==> s.healthy)
  {
    hide Save, Answer, ContractOk, FirstWith, NewRecord, WithoutRecord;
  }

  lemma RecordsFrom(policy: Policy, tools: Tools, s: SessionState, st: State, taskId: Str, proposal: Option<Proposal>, io: Io)
    ensures forall r | r in Handle(policy, tools, s, st, 0, taskId, proposal, io).2.records :: r in st.records || r.id == io.id
  {
    hide Handle, FirstWith, NotOwn, Payload, Decided, ProposalOk, BoundBroken;
    RecordsAfter(policy, tools, s, st, 0, taskId, proposal, io);
    if proposal.Some? && proposal.value.DeleteProposal? {
      WithoutMembers(st.records, proposal.value.memoryId);
    }
  }

  lemma {:induction false} RunSparesOthers(policy: Policy, tools: Tools, s: SessionState, st: State, calls: seq<Call>, other: Str)
    requires UniqueIds(st.records) && FreshIds(st.records, calls)
    requires forall i | 0 <= i < |calls| :: calls[i].taskId != other
    ensures var (t, su) := RunCalls(policy, tools, s, st, calls);
            && Owned(su.records, other) == Owned(st.records, other) && UniqueIds(su.records)
            && SameStanding(s.(healthy := t.healthy), t)
            && forall r | r in su.records :: r in st.records || exists i | 0 <= i < |calls| :: calls[i].io.id == r.id
  {
    hide Handle, Owned;
    if calls == [] {
    } else {
      var n := |calls| - 1;
      var c := calls[n];
      RunSparesOthers(policy, tools, s, st, calls[..n], other);
      var (s1, st1) := RunCalls(policy, tools, s, st, calls[..n]);
      forall r | r in st1.records ensures r.id != c.io.id {
        if r !in st.records {
          var i :| 0 <= i < |calls[..n]| && calls[..n][i].io.id == r.id;
          assert calls[i].io.id == r.id;
        }
      }
      OthersUntouched(policy, tools, s1, st1, 0, c.taskId, c.proposal, c.io, other);
      StandingKept(policy, tools, s1, st1, c.taskId, c.proposal, c.io);
      RecordsFrom(policy, tools, s1, st1, c.taskId, c.proposal, c.io);
      var su := RunCalls(policy, tools, s, st, calls).1;
      forall r | r in su.records ensures r in st.records || exists i | 0 <= i < |calls| :: calls[i].io.id == r.id {
        if r in st1.records {
          if r !in st.records {
            var i :| 0 <= i < |calls[..n]| && calls[..n][i].io.id == r.id;
            assert calls[i].io.id == r.id;
          }
        } else {
          assert calls[n].io.id == r.id;
        }
      }
    }
  }

  /**
   * Noninterference over runs: as long as the audit file stays healthy, a task's read gives the
   * same reply after any calls of other tasks as before them.
   */
  lemma ReadUnaffectedByOthers(policy: Policy, tools: Tools, s: SessionState, st: State, calls: seq<Call>,
                               taskId: Str, query: Str, maxResults: Option<nat>, io: Io)
    requires UniqueIds(st.records) && FreshIds(st.records, calls)
    requires forall i | 0 <= i < |calls| :: calls[i].taskId != taskId
    requires RunCalls(policy, tools, s, st, calls).0.healthy == s.healthy
    ensures var (t, su) := RunCalls(policy, tools, s, st, calls);
            var p := Some(ReadProposal(query, maxResults));
            Handle(policy, tools, t, su, 0, taskId, p, io).0 == Handle(policy, tools, s, st, 0, taskId, p, io).0
  {
    hide Handle, Owned, RunCalls;
    RunSparesOthers(policy, tools, s, st, calls, taskId);
    var (t, su) := RunCalls(policy, tools, s, st, calls);
    ReadSeesOwnOnly(policy, tools, s, t, st, su, 0, taskId, query, maxResults, io);
  }

  // ---- the answer ----

  lemma {:induction false} MatchedMeans(tools: Tools, rs: seq<Record>, needle: Str)
    ensures forall r :: r in Matched(tools, rs, needle) <==> r in rs && Includes(tools.normalize(r.content), needle)
  {
    hide Includes;
    if rs == [] {
    } else {
      MatchedMeans(tools, rs[1..], needle);
      assert rs == [rs[0]] + rs[1..];
    }
  }

  lemma {:induction false} ToViewsAt(rs: seq<Record>)
    ensures forall i | 0 <= i < |rs| :: ToViews(rs)[i] == ToView(rs[i])
  {
    if rs == [] {
    } else {
      ToViewsAt(rs[1..]);
    }
  }

  lemma {:induction false} ShrunkIsLongest(vs: seq<View>)
    ensures Shrunk(vs) == [] || ViewBytes(Shrunk(vs)) <= 64 * 1024
    ensures forall k | |Shrunk(vs)| < k <= |vs| :: ViewBytes(vs[..k]) > 64 * 1024
  {
    hide ViewBytes;
    if vs != [] && ViewBytes(vs) > MAX_PAYLOAD_BYTES {
      var front := vs[..|vs| - 1];
      ShrunkIsLongest(front);
      forall k | |Shrunk(vs)| < k <= |vs| ensures ViewBytes(vs[..k]) > MAX_PAYLOAD_BYTES {
        if k < |vs| {
          assert vs[..k] == front[..k];
        } else {
          assert vs[..k] == vs;
        }
      }
    }
  }

  /**
   * An answer shows matching records of its own task, in store order, at most the number
   * asked for and within the payload limit; unless it is called truncated it shows all of them.
   */
  lemma AnswerIsExact(tools: Tools, rs: seq<Record>, taskId: Str, query: Str, maxResults: nat, r: Record)
    ensures var (views, truncated) := Answer(tools, rs, taskId, query, maxResults);
            && |views| <= maxResults && (views == [] || ViewBytes(views) <= 64 * 1024)
            && views <= ToViews(Matched(tools, Owned(rs, taskId), tools.normalize(query)))
            && (!truncated ==> views == ToViews(Matched(tools, Owned(rs, taskId), tools.normalize(query))))
            && (truncated ==> |views| < |Matched(tools, Owned(rs, taskId), tools.normalize(query))|)
    ensures r in Matched(tools, Owned(rs, taskId), tools.normalize(query)) <==>
              r in rs && r.taskId == taskId && Includes(tools.normalize(r.content), tools.normalize(query))
  {
    hide Matched, Owned, Includes, ViewBytes, Shrunk;
    var matched := Matched(tools, Owned(rs, taskId), tools.normalize(query));
    MatchedMeans(tools, Owned(rs, taskId), tools.normalize(query));
    OwnedOwns(rs, taskId);
    ShrunkIsLongest(ToViews(Take(matched, maxResults)));
    ToViewsAt(matched);
    ToViewsAt(Take(matched, maxResults));
  }
}
