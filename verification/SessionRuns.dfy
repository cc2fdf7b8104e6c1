/**
 * What a run of trusted actions amounts to, in both directions: who is awake, killed, granted and
 * confirmed after it, and so exactly when an execution starts.
 */
module SessionRuns {
  import opened Text
  import opened Kernel
  import opened Authorize
  import opened Entitlement
  import opened Executor
  import opened Session
  import opened SessionSafety

  // ---- sleep and kill ----

  /** A trusted wake-up that no later action takes back. */
  predicate LastWoken(actions: seq<Action>, n: nat, w: nat)
    requires n <= |actions|
  {
    w < n && actions[w].WakeUp? && actions[w].trusted && forall k | w < k < n :: !actions[k].GoToSleep?
  }

  lemma {:induction false} AwakeExactly(p: Policy, s: SessionState, actions: seq<Action>, n: nat)
    requires n <= |actions| && s.sleep.SLEEP?
    ensures After(p, s, actions[..n]).sleep.AWAKE? <==> exists w :: LastWoken(actions, n, w)
    decreases n
  {
    hide Step;
    assert actions[..0] == [];
    if n == 0 {
    } else {
      var m := n - 1;
      AfterNext(p, s, actions, m);
      AwakeExactly(p, s, actions, m);
      SleepAfterStep(p, After(p, s, actions[..m]), actions[m]);
      if actions[m].WakeUp? && actions[m].trusted {
        assert LastWoken(actions, n, m);
      } else {
        assert forall w: nat | w < m :: LastWoken(actions, n, w) <==> LastWoken(actions, m, w) && !actions[m].GoToSleep?;
      }
    }
  }

  lemma SleepAfterStep(p: Policy, s: SessionState, a: Action)
    ensures Step(p, s, a).sleep.AWAKE? <==> if a.GoToSleep? then false else s.sleep.AWAKE? || (a.WakeUp? && a.trusted)
  {
    hide Execute, IssueGrant;
    KeptByRuns(p, s, a);
  }

  lemma KeptByRuns(p: Policy, s: SessionState, a: Action)
    ensures a.RunDurable? ==>
              var t := Step(p, s, a);
              t.sleep == s.sleep && t.killed == s.killed && t.grants == s.grants && t.confirmations == s.confirmations
  {
    hide Execute, IssueGrant;
    if a.RunDurable? && s.healthy && a.envelope.Some? && a.envelope.value.epoch == s.epoch && a.writable {
      var kinds := Execute(p, a.envelope.value.request, ContextOf(s), s.killed, a.result).1;
      PersistAllKeeps(s.(log := AppendEvents(s.log, kinds, s.sleep)), kinds, a.oks);
    }
  }

  /** An engagement of the switch that nobody with the control key has lifted since. */
  predicate StillEngaged(actions: seq<Action>, n: nat, key: nat, e: nat)
    requires n <= |actions|
  {
    e < n && actions[e].EngageKill? && forall k | e < k < n :: actions[k] != DisengageKill(Some(key))
  }

  lemma {:induction false} KilledExactly(p: Policy, s: SessionState, actions: seq<Action>, n: nat)
    requires n <= |actions| && !s.killed
    ensures After(p, s, actions[..n]).killed <==> exists e :: StillEngaged(actions, n, s.key, e)
    decreases n
  {
    hide Step;
    assert actions[..0] == [];
    if n == 0 {
    } else {
      var m := n - 1;
      AfterNext(p, s, actions, m);
      KilledExactly(p, s, actions, m);
      KeyStays(p, s, actions[..m]);
      KilledAfterStep(p, After(p, s, actions[..m]), actions[m]);
      if actions[m].EngageKill? {
        assert StillEngaged(actions, n, s.key, m);
      } else {
        assert forall e: nat | e < m ::
          StillEngaged(actions, n, s.key, e) <==> StillEngaged(actions, m, s.key, e) && actions[m] != DisengageKill(Some(s.key));
      }
    }
  }

  lemma KilledAfterStep(p: Policy, s: SessionState, a: Action)
    ensures Step(p, s, a).killed <==> a.EngageKill? || (s.killed && a != DisengageKill(Some(s.key)))
  {
    hide Execute, IssueGrant;
    KeptByRuns(p, s, a);
  }

  // ---- grants and confirmations ----

  /** A failed issuance of a grant with this id, whose rollback drops its namesakes as well. */
  predicate RollsBack(p: Policy, a: Action, grantId: Str) {
    a.GrantTo? && !a.ok && IssueGrant(p, a.issuance).Some? && a.issuance.grantId == grantId
  }

  /** Issued at step j, durably, and neither revoked nor rolled back since. */
  ghost predicate Standing(p: Policy, actions: seq<Action>, n: nat, j: nat, g: Grant)
    requires n <= |actions|
  {
    IssuedAt(p, actions, n, j, g) && forall k | j < k < n :: !RollsBack(p, actions[k], g.grantId)
  }

  lemma {:induction false} GrantsExactly(p: Policy, s: SessionState, actions: seq<Action>, n: nat, g: Grant)
    requires n <= |actions| && s.grants == [] && !g.revoked
    ensures g in After(p, s, actions[..n]).grants <==> exists j :: Standing(p, actions, n, j, g)
    decreases n
  {
    hide Step, IssueGrant, RollsBack;
    assert actions[..0] == [];
    if n == 0 {
    } else {
      var m := n - 1;
      var before, a := After(p, s, actions[..m]), actions[m];
      AfterNext(p, s, actions, m);
      GrantsExactly(p, s, actions, m, g);
      LiveAfterStep(p, before, a, g);
      if a.GrantTo? && a.ok && IssueGrant(p, a.issuance) == Some(g) {
        IssuedExactly(p, a.issuance, g);
        assert Standing(p, actions, n, m, g);
      } else {
        forall j: nat | j < m
          ensures Standing(p, actions, n, j, g) <==>
                    Standing(p, actions, m, j, g) && !RollsBack(p, a, g.grantId) && a != RevokeGrant(g.grantId, true) && a != RevokeGrant(g.grantId, false)
        {
        }
      }
    }
  }

  lemma LiveAfterStep(p: Policy, s: SessionState, a: Action, g: Grant)
    requires !g.revoked
    ensures g in Step(p, s, a).grants <==>
              || (a.GrantTo? && a.ok && IssueGrant(p, a.issuance) == Some(g))
              || (g in s.grants && !RollsBack(p, a, g.grantId) && (a.RevokeGrant? ==> a.grantId != g.grantId))
  {
    hide Execute, IssueGrant;
    KeptByRuns(p, s, a);
    match a
    case GrantTo(issuance, ok) =>
      if IssueGrant(p, issuance).Some? {
        IssuedExactly(p, issuance, IssueGrant(p, issuance).value);
      }
    case RevokeGrant(id, ok) =>
      var r := Revoke(s.grants, id);
      if g in r {
        var k :| 0 <= k < |r| && r[k] == g;
        assert s.grants[k] in s.grants;
      }
      if g in s.grants && id != g.grantId {
        var k :| 0 <= k < |s.grants| && s.grants[k] == g;
        assert r[k] == g;
      }
    case _ =>
  }

  lemma {:induction false} ConfirmationsExactly(p: Policy, s: SessionState, actions: seq<Action>, n: nat, c: Confirmation)
    requires n <= |actions| && s.confirmations == []
    ensures c in After(p, s, actions[..n]).confirmations <==> exists j | 0 <= j < n :: actions[j].Confirm? && actions[j].record == c
    decreases n
  {
    hide Step;
    assert actions[..0] == [];
    if n == 0 {
    } else {
      var m := n - 1;
      AfterNext(p, s, actions, m);
      ConfirmationsExactly(p, s, actions, m, c);
      ConfirmationsAfterStep(p, After(p, s, actions[..m]), actions[m]);
      if actions[m].Confirm? && actions[m].record == c {
        assert actions[m].record == c;
      }
    }
  }

  // ---- what an execution leaves on record ----

  /** The durable events of a list of kinds, in their order. */
  predicate RecordedAs(more: seq<Durable>, epoch: SafeInteger, sleep: Sleep, kinds: seq<Kind>) {
    |more| == |kinds| && forall i | 0 <= i < |kinds| :: more[i] == Durable(epoch, sleep, Logged(kinds[i]))
  }

  /** The kinds whose append succeeds; one that is not listed does. */
  function Surviving(kinds: seq<Kind>, oks: seq<bool>): seq<Kind> {
    if kinds == [] then []
    else (if oks == [] || oks[0] then [kinds[0]] else []) + Surviving(kinds[1..], if oks == [] then [] else oks[1..])
  }

  lemma {:induction false} SurvivingLast(kinds: seq<Kind>, kind: Kind, oks: seq<bool>)
    ensures Surviving(kinds + [kind], oks) == Surviving(kinds, oks) + if |kinds| >= |oks| || oks[|kinds|] then [kind] else []
    decreases |kinds|
  {
    if kinds == [] {
      assert ([] + [kind])[1..] == [];
    } else {
      var rest := if oks == [] then [] else oks[1..];
      SurvivingLast(kinds[1..], kind, rest);
      assert (kinds + [kind])[1..] == kinds[1..] + [kind];
    }
  }

  lemma {:induction false} AllSurvive(kinds: seq<Kind>, oks: seq<bool>)
    ensures Surviving(kinds, oks) == kinds <==> forall k | 0 <= k < |oks| :: k < |kinds| ==> oks[k]
    ensures |Surviving(kinds, oks)| <= |kinds|
    decreases |kinds|
  {
    if kinds == [] {
    } else {
      var rest := if oks == [] then [] else oks[1..];
      AllSurvive(kinds[1..], rest);
      assert kinds == [kinds[0]] + kinds[1..];
      if oks != [] {
        assert (forall k | 0 <= k < |oks| :: k < |kinds| ==> oks[k]) <==>
               oks[0] && forall k | 0 <= k < |rest| :: k < |kinds[1..]| ==> rest[k] by {
          assert forall k | 0 <= k < |rest| :: rest[k] == oks[k + 1];
          assert forall k | 1 <= k < |oks| :: oks[k] == rest[k - 1];
        }
      }
    }
  }

  lemma {:induction false} PersistedKinds(s: SessionState, kinds: seq<Kind>, oks: seq<bool>)
    ensures var t := PersistAll(s, kinds, oks);
            && s.trail <= t.trail && RecordedAs(t.trail[|s.trail|..], s.epoch, s.sleep, Surviving(kinds, oks))
    ensures PersistAll(s, kinds, oks).epoch == s.epoch && PersistAll(s, kinds, oks).sleep == s.sleep
  {
    hide Surviving;
    if kinds == [] {
      assert Surviving([], oks) == [] by { NoneSurvives(oks); }
    } else {
      var n := |kinds| - 1;
      PersistedKinds(s, kinds[..n], oks);
      PersistAllKeeps(s, kinds[..n], oks);
      assert kinds == kinds[..n] + [kinds[n]];
      SurvivingLast(kinds[..n], kinds[n], oks);
    }
  }

  lemma NoneSurvives(oks: seq<bool>)
    ensures Surviving([], oks) == []
  {
  }

  /** An execution logs its events in order and records them durably in the same order, going on behind an append that fails. */
  lemma ExecutionIsRecorded(p: Policy, s: SessionState, a: Action)
    requires a.RunDurable? && s.healthy && a.envelope.Some? && a.envelope.value.epoch == s.epoch && a.writable
    ensures var kinds := Execute(p, a.envelope.value.request, ContextOf(s), s.killed, a.result).1;
            var t := Step(p, s, a);
            && |t.log| == |s.log| + |kinds| && s.log <= t.log && s.trail <= t.trail
            && (forall i | 0 <= i < |kinds| :: t.log[|s.log| + i] == LogEvent(|s.log| + i + 1, kinds[i], s.sleep))
            && RecordedAs(t.trail[|s.trail|..], s.epoch, s.sleep, Surviving(kinds, a.oks))
            && (t.healthy <==> Surviving(kinds, a.oks) == kinds)
  {
    hide Execute, PersistAll, AppendEvents, Surviving;
    var kinds := Execute(p, a.envelope.value.request, ContextOf(s), s.killed, a.result).1;
    AppendedKinds(s.log, kinds, s.sleep);
    var t := s.(log := AppendEvents(s.log, kinds, s.sleep));
    PersistAllKeeps(t, kinds, a.oks);
    PersistedKinds(t, kinds, a.oks);
    PersistAllHealth(t, kinds, a.oks);
    AllSurvive(kinds, a.oks);
  }

  /** What an action tries to record, if anything. */
  predicate Attempts(p: Policy, s: SessionState, a: Action, deed: Deed) {
    match a
    case GrantTo(i, _) => IssueGrant(p, i).Some? && deed == Issued(Grant(i.grantId, i.taskId, i.capability, i.scope, false))
    case RevokeGrant(grantId, _) => deed == Revoked(grantId)
    case Confirm(_, _) => deed == Logged(ConfirmationRecorded)
    case GoToSleep(_) => deed == Slept
    case WakeUp(trusted, _) => trusted && s.sleep == SLEEP && deed == Woke
    case EngageKill(_) => deed == Logged(KillEngaged)
    case DisengageKill(_) => false
    case RunDurable(_, _, _, _) => false
  }

  /** Every other action logs nothing and records just itself, under the sleep state it leaves, unless its append fails. */
  lemma ActionIsRecorded(p: Policy, s: SessionState, a: Action)
    requires !a.RunDurable?
    ensures var t := Step(p, s, a);
            t.log == s.log &&
            (t.trail == s.trail
             || exists deed :: Attempts(p, s, a, deed) && t.trail == s.trail + [Durable(s.epoch, t.sleep, deed)])
    ensures s.healthy && Step(p, s, a).healthy ==>
              (Step(p, s, a).trail == s.trail <==> !exists deed :: Attempts(p, s, a, deed))
  {
    hide IssueGrant;
    ghost var deed := match a
      case GrantTo(i, _) => Issued(Grant(i.grantId, i.taskId, i.capability, i.scope, false))
      case RevokeGrant(grantId, _) => Revoked(grantId)
      case Confirm(_, _) => Logged(ConfirmationRecorded)
      case GoToSleep(_) => Slept
      case WakeUp(_, _) => Woke
      case _ => Logged(KillEngaged);
    assert (exists d :: Attempts(p, s, a, d)) <==> Attempts(p, s, a, deed);
    if a.GrantTo? && IssueGrant(p, a.issuance).Some? {
      IssuedExactly(p, a.issuance, IssueGrant(p, a.issuance).value);
    }
  }

  /** An envelope is turned away early for the first of four reasons; otherwise its request is executed. */
  lemma EarlyExactly(p: Policy, s: SessionState, envelope: Option<Envelope>, writable: bool, result: AdapterResult, oks: seq<bool>)
    ensures var r := RunStep(p, s, envelope, writable, result, oks).0;
            var current := s.healthy && envelope.Some? && envelope.value.epoch == s.epoch;
            && (r == RefusedEarly(Unhealthy) <==> !s.healthy)
            && (r == RefusedEarly(MalformedEnvelope) <==> s.healthy && envelope.None?)
            && (r == RefusedEarly(StaleEpoch) <==> s.healthy && envelope.Some? && envelope.value.epoch != s.epoch)
            && (r == RefusedEarly(SinkUnwritable) <==> current && !writable)
            && (r.Ran? <==> current && writable)
            && (r.Ran? ==> r.execution == Execute(p, envelope.value.request, Context(s.sleep, s.grants, s.confirmations, s.log), s.killed, result).0)
  {
    hide Execute;
  }

  /** What an envelope that is turned away leaves behind: one durable event where the reason is its own, and nothing in the log. */
  lemma EarlyIsRecorded(p: Policy, s: SessionState, a: Action)
    requires a.RunDurable? && RunStep(p, s, a.envelope, a.writable, a.result, a.oks).0.RefusedEarly?
    ensures var t := Step(p, s, a);
            var kind := if a.envelope.None? then RequestValidationFailed else AuthorizationDenied;
            var fails := a.oks != [] && !a.oks[0];
            if !s.healthy then t == s
            else if a.envelope.Some? && a.envelope.value.epoch == s.epoch then t == s.(healthy := false)
            else if fails then t == s.(healthy := false)
            else t == s.(trail := s.trail + [Durable(s.epoch, s.sleep, Logged(kind))])
  {
    hide Execute;
  }

  // ---- when an execution starts ----

  /** The pairs of capability and operation that the executor runs at all. */
  predicate Executable(capability: Str, operation: Str) {
    || (Is(capability, "system.info") && Is(operation, "info"))
    || (Is(capability, "filesystem.read") && (Is(operation, "read") || Is(operation, "list")))
    || (Is(capability, "git.read") && (Is(operation, "status") || Is(operation, "log") || Is(operation, "diff")))
    || (Is(capability, "filesystem.find") && Is(operation, "find"))
    || (Is(capability, "filesystem.search") && Is(operation, "search"))
    || (Is(capability, "filesystem.tree") && Is(operation, "tree"))
  }

  lemma ExecutableExactly(capability: Str, operation: Str)
    ensures AdapterFor(capability, operation).Some? <==> Executable(capability, operation)
    ensures Executable(capability, operation) ==> !Is(capability, "unknown") && !Is(operation, "unknown")
  {
    CapabilityNames(capability);
    OperationNames(operation);
    hide Is;
  }

  lemma CapabilityNames(s: Str)
    ensures Is(s, "system.info") <==> s == SYSTEM_INFO
    ensures Is(s, "filesystem.read") <==> s == FILESYSTEM_READ
    ensures Is(s, "git.read") <==> s == GIT_READ
    ensures Is(s, "filesystem.find") <==> s == FILESYSTEM_FIND
    ensures Is(s, "filesystem.search") <==> s == FILESYSTEM_SEARCH
    ensures Is(s, "filesystem.tree") <==> s == FILESYSTEM_TREE
    ensures Is(s, "unknown") ==> s[0] == 'u' as int
    ensures SYSTEM_INFO[0] != 'u' as int && FILESYSTEM_READ[0] != 'u' as int && GIT_READ[0] != 'u' as int
    ensures FILESYSTEM_FIND[0] != 'u' as int && FILESYSTEM_SEARCH[0] != 'u' as int && FILESYSTEM_TREE[0] != 'u' as int
  {
  }

  lemma OperationNames(s: Str)
    ensures Is(s, "info") <==> s == INFO
    ensures Is(s, "read") <==> s == READ
    ensures Is(s, "list") <==> s == LIST
    ensures Is(s, "status") <==> s == STATUS
    ensures Is(s, "log") <==> s == LOG
    ensures Is(s, "diff") <==> s == DIFF
    ensures Is(s, "find") <==> s == FIND
    ensures Is(s, "search") <==> s == SEARCH
    ensures Is(s, "tree") <==> s == TREE
    ensures Is(s, "unknown") ==> |s| == 7
    ensures |INFO| != 7 && |READ| != 7 && |LIST| != 7 && |STATUS| != 7 && |LOG| != 7 && |DIFF| != 7 && |FIND| != 7 && |SEARCH| != 7 && |TREE| != 7
  {
  }

  /** Some grant of the run stands, and with its capability's definition it lets the request through. */
  ghost predicate GrantedBy(p: Policy, actions: seq<Action>, n: nat, req: Request, def: Definition)
    requires n <= |actions|
  {
    && Declares(p.registry, req.capability, def)
    && req.operation in def.operations && (def.scoped <==> req.resource.Some?)
    && (exists j, g :: Standing(p, actions, n, j, g) && Backs(p.lower, def, req, g))
    && (def.tier >= 2 || def.requiresConfirmation ==> exists j | 0 <= j < n :: Confirms(actions[j], req))
  }

  lemma BackedExactly(p: Policy, s: SessionState, actions: seq<Action>, n: nat, req: Request, def: Definition)
    requires n <= |actions| && s.grants == []
    ensures (exists j, g :: Standing(p, actions, n, j, g) && Backs(p.lower, def, req, g)) <==>
              exists g | g in After(p, s, actions[..n]).grants :: Backs(p.lower, def, req, g)
  {
    hide Standing, Covers, After;
    var now := After(p, s, actions[..n]);
    if exists j, g :: Standing(p, actions, n, j, g) && Backs(p.lower, def, req, g) {
      var j, g :| Standing(p, actions, n, j, g) && Backs(p.lower, def, req, g);
      GrantsExactly(p, s, actions, n, g);
    }
    if exists g | g in now.grants :: Backs(p.lower, def, req, g) {
      var g :| g in now.grants && Backs(p.lower, def, req, g);
      GrantsExactly(p, s, actions, n, g);
      var j :| Standing(p, actions, n, j, g);
    }
  }

  lemma ConfirmedExactly(p: Policy, s: SessionState, actions: seq<Action>, n: nat, req: Request, def: Definition)
    requires n <= |actions| && s.confirmations == [] && req.taskId.Some?
    ensures Endorsed(req, ContextOf(After(p, s, actions[..n])), def) <==>
              (def.tier >= 2 || def.requiresConfirmation ==> exists j | 0 <= j < n :: Confirms(actions[j], req))
  {
    hide After;
    var now := After(p, s, actions[..n]);
    forall c ensures c in now.confirmations <==> exists j | 0 <= j < n :: actions[j].Confirm? && actions[j].record == c {
      ConfirmationsExactly(p, s, actions, n, c);
    }
    if exists j | 0 <= j < n :: Confirms(actions[j], req) {
      var j :| 0 <= j < n && Confirms(actions[j], req);
      assert actions[j].record in now.confirmations;
    }
    if Endorsed(req, ContextOf(now), def) && (def.tier >= 2 || def.requiresConfirmation) {
      var c :| c in now.confirmations && c.taskId == req.taskId.value && c.capability == req.capability
        && c.operation == req.operation && c.resource == (match req.resource case None => [] case Some(r) => r);
      var j :| 0 <= j < n && actions[j].Confirm? && actions[j].record == c;
      assert Confirms(actions[j], req);
    }
  }

  lemma GrantedExactly(p: Policy, s: SessionState, actions: seq<Action>, n: nat, req: Request, def: Definition)
    requires n <= |actions| && s.grants == [] && s.confirmations == [] && After(p, s, actions[..n]).sleep.AWAKE?
    ensures var ctx := ContextOf(After(p, s, actions[..n]));
            GrantedBy(p, actions, n, req, def) <==> Entitled(p, req, ctx, def) && req.taskId.Some? && Endorsed(req, ctx, def)
  {
    hide Declares, Standing, Backs, After, Endorsed, Confirms;
    BackedExactly(p, s, actions, n, req, def);
    BackedHasTask(p.lower, def, req);
    if req.taskId.Some? {
      ConfirmedExactly(p, s, actions, n, req, def);
    }
  }

  lemma BackedHasTask(lower: Str -> Str, def: Definition, req: Request)
    ensures forall g :: Backs(lower, def, req, g) ==> req.taskId.Some?
  {
  }

  /**
   * Over whole runs: an execution starts exactly when its envelope names the live epoch, the audit
   * file is writable and no append has failed, the session was woken and is not asleep again, no
   * engagement of the kill switch stands, the request is executable, and a grant of this run that
   * stands lets it through, confirmed where that is asked for.
   */
  lemma StartsOverRuns(p: Policy, epoch: SafeInteger, key: nat, actions: seq<Action>, n: nat)
    requires n < |actions| && actions[n].RunDurable?
    ensures var a := actions[n];
            StartsIn(p, After(p, Fresh(epoch, key), actions[..n]), a) <==>
              && a.envelope.Some? && a.envelope.value.epoch == epoch && a.writable
              && (forall k | 0 <= k < n :: !AppendFails(p, After(p, Fresh(epoch, key), actions[..k]), actions[k]))
              && (exists w :: LastWoken(actions, n, w)) && !(exists e :: StillEngaged(actions, n, key, e))
              && a.envelope.value.request.Some?
              && var req := a.envelope.value.request.value;
                 && Executable(req.capability, req.operation)
                 && exists def :: GrantedBy(p, actions, n, req, def)
  {
    hide After, Step, Execute, AppendFails, IssueGrant, Outcome, AdapterFor, Executable, GrantedBy, Entitled, Endorsed, ShapedDecision;
    var s := Fresh(epoch, key);
    var now, a := After(p, s, actions[..n]), actions[n];
    KeyStays(p, s, actions[..n]);
    HealthyMeansNoFailure(p, s, actions, n);
    AwakeExactly(p, s, actions, n);
    KilledExactly(p, s, actions, n);
    if a.envelope.Some? && a.envelope.value.request.Some? {
      var req := a.envelope.value.request.value;
      StartedExactly(p, a.envelope.value.request, ContextOf(now), now.killed, a.result);
      ExecutableExactly(req.capability, req.operation);
      Shaped(req);
      if now.sleep.AWAKE? {
        forall def ensures GrantedBy(p, actions, n, req, def) <==>
          Entitled(p, req, ContextOf(now), def) && req.taskId.Some? && Endorsed(req, ContextOf(now), def)
        {
          GrantedExactly(p, s, actions, n, req, def);
        }
        if Executable(req.capability, req.operation) {
          NoLegacyRuns(req.capability, req.operation);
          AllowedExactly(p, req, ContextOf(now));
        }
      }
    } else if a.envelope.Some? {
      StartedExactly(p, None, ContextOf(now), now.killed, a.result);
    }
  }

  lemma Shaped(req: Request)
    ensures ShapedDecision(req) <==> !Is(req.capability, "unknown") && !Is(req.operation, "unknown")
  {
  }

  lemma NoLegacyRuns(capability: Str, operation: Str)
    requires Executable(capability, operation)
    ensures !IsLegacy(capability)
  {
    hide IsLegacy, AdapterFor, Executable;
    ExecutableExactly(capability, operation);
    if IsLegacy(capability) {
      LegacyHasNoAdapter(capability, operation);
    }
  }
}
