/** What holds over every run of a session: when execution can start, and what the durable trail says. */
module SessionSafety {
  import opened Text
  import opened Kernel
  import opened Authorize
  import opened Entitlement
  import opened Executor
  import opened Session

  /** The state after a run of actions. */
  function After(p: Policy, s: SessionState, actions: seq<Action>): SessionState {
    if actions == [] then s
    else Step(p, After(p, s, actions[..|actions| - 1]), actions[|actions| - 1])
  }

  lemma AfterNext(p: Policy, s: SessionState, actions: seq<Action>, n: nat)
    requires n < |actions|
    ensures After(p, s, actions[..n + 1]) == Step(p, After(p, s, actions[..n]), actions[n])
  {
    assert actions[..n + 1][..n] == actions[..n];
  }

  /** The action starts an execution in this state: its events contain execution.started. */
  predicate StartsIn(p: Policy, s: SessionState, a: Action) {
    && a.RunDurable?
    && RunStep(p, s, a.envelope, a.writable, a.result, a.oks).0.Ran?
    && ExecutionStarted in Execute(p, a.envelope.value.request, ContextOf(s), s.killed, a.result).1
  }

  lemma PersistAllKeeps(s: SessionState, kinds: seq<Kind>, oks: seq<bool>)
    ensures var t := PersistAll(s, kinds, oks);
            t == s.(healthy := t.healthy, trail := t.trail) && (t.healthy ==> s.healthy)
  {
  }

  /** What one step can do to the parts of the state that execution depends on. */
  lemma StepEffects(p: Policy, s: SessionState, a: Action)
    ensures var t := Step(p, s, a);
            && t.epoch == s.epoch && t.key == s.key
            && (t.healthy ==> s.healthy)
            && (t.sleep != s.sleep ==> a.GoToSleep? || (a.WakeUp? && a.trusted))
            && (a.GoToSleep? ==> t.sleep.SLEEP?)
            && (t.killed && !s.killed ==> a.EngageKill?)
            && (a.EngageKill? ==> t.killed)
            && (!t.killed && s.killed ==> a == DisengageKill(Some(s.key)))
  {
    hide Execute, IssueGrant;
    if a.RunDurable? && s.healthy && a.envelope.Some? && a.envelope.value.epoch == s.epoch && a.writable {
      var kinds := Execute(p, a.envelope.value.request, ContextOf(s), s.killed, a.result).1;
      PersistAllKeeps(s.(log := AppendEvents(s.log, kinds, s.sleep)), kinds, a.oks);
    }
  }

  // ---- where a live grant comes from ----

  /** The grant was issued at step j, durably, and not revoked between then and step n. */
  ghost predicate IssuedAt(p: Policy, actions: seq<Action>, n: nat, j: nat, g: Grant)
    requires n <= |actions|
  {
    && j < n
    && actions[j].GrantTo? && actions[j].ok
    && IssueGrant(p, actions[j].issuance) == Some(g)
    && actions[j].issuance == Issuance(g.grantId, g.taskId, g.capability, g.scope) && !g.revoked
    && forall k | j < k < n :: actions[k].RevokeGrant? ==> actions[k].grantId != g.grantId
  }

  lemma {:induction false} LiveGrantWasIssued(p: Policy, s: SessionState, actions: seq<Action>, n: nat, g: Grant)
    requires n <= |actions| && s.grants == []
    requires g in After(p, s, actions[..n]).grants && !g.revoked
    ensures exists j :: IssuedAt(p, actions, n, j, g)
    decreases n
  {
    hide IssueGrant, Execute;
    assert actions[..0] == [];
    if n > 0 {
      var m := n - 1;
      AfterNext(p, s, actions, m);
      var before, a := After(p, s, actions[..m]), actions[m];
      GrantsAfterStep(p, before, a, g);
      if a.GrantTo? && IssueGrant(p, a.issuance) == Some(g) && a.ok {
        IssuedExactly(p, a.issuance, g);
        assert IssuedAt(p, actions, n, m, g);
      } else {
        LiveGrantWasIssued(p, s, actions, m, g);
        var j :| IssuedAt(p, actions, m, j, g);
        assert IssuedAt(p, actions, n, j, g);
      }
    }
  }

  lemma GrantsAfterStep(p: Policy, s: SessionState, a: Action, g: Grant)
    requires g in Step(p, s, a).grants && !g.revoked
    ensures (a.GrantTo? && a.ok && IssueGrant(p, a.issuance) == Some(g))
         || (g in s.grants && (a.RevokeGrant? ==> a.grantId != g.grantId))
  {
    hide IssueGrant, Execute;
    match a
    case RevokeGrant(id, ok) =>
      var r := Revoke(s.grants, id);
      var k :| 0 <= k < |r| && r[k] == g;
      assert s.grants[k] in s.grants;
    case RunDurable(envelope, writable, result, oks) =>
      if s.healthy && envelope.Some? && envelope.value.epoch == s.epoch && writable {
        var kinds := Execute(p, envelope.value.request, ContextOf(s), s.killed, result).1;
        PersistAllKeeps(s.(log := AppendEvents(s.log, kinds, s.sleep)), kinds, oks);
      }
    case _ =>
  }

  // ---- awake, alive and healthy ----

  lemma {:induction false} AwakeWasWoken(p: Policy, s: SessionState, actions: seq<Action>, n: nat)
    requires n <= |actions| && s.sleep.SLEEP? && After(p, s, actions[..n]).sleep.AWAKE?
    ensures exists w | 0 <= w < n ::
      actions[w].WakeUp? && actions[w].trusted && forall k | w < k < n :: !actions[k].GoToSleep?
    decreases n
  {
    hide Step;
    assert actions[..0] == [];
    if n > 0 {
      var m := n - 1;
      AfterNext(p, s, actions, m);
      StepEffects(p, After(p, s, actions[..m]), actions[m]);
      if After(p, s, actions[..m]).sleep.AWAKE? {
        AwakeWasWoken(p, s, actions, m);
      } else {
        assert actions[m].WakeUp? && actions[m].trusted;
      }
    }
  }

  lemma {:induction false} KillWasLifted(p: Policy, s: SessionState, actions: seq<Action>, n: nat, e: nat)
    requires e < n <= |actions| && actions[e].EngageKill? && !After(p, s, actions[..n]).killed
    ensures exists d | e < d < n :: actions[d] == DisengageKill(Some(s.key))
    decreases n
  {
    hide Step;
    var m := n - 1;
    AfterNext(p, s, actions, m);
    KeyStays(p, s, actions[..m]);
    StepEffects(p, After(p, s, actions[..m]), actions[m]);
    if After(p, s, actions[..m]).killed {
      assert actions[m] == DisengageKill(Some(s.key));
    } else {
      KillWasLifted(p, s, actions, m, e);
    }
  }

  lemma {:induction false} KeyStays(p: Policy, s: SessionState, actions: seq<Action>)
    ensures After(p, s, actions).key == s.key && After(p, s, actions).epoch == s.epoch
  {
    hide Step;
    if actions == [] {
    } else {
      KeyStays(p, s, actions[..|actions| - 1]);
      StepEffects(p, After(p, s, actions[..|actions| - 1]), actions[|actions| - 1]);
    }
  }

  /** One of the appends that this action makes in this state fails, or it finds the sink unwritable. */
  predicate AppendFails(p: Policy, s: SessionState, a: Action) {
    match a
    case GrantTo(issuance, ok) => IssueGrant(p, issuance).Some? && !ok
    case RevokeGrant(_, ok) => !ok
    case Confirm(_, ok) => !ok
    case GoToSleep(ok) => !ok
    case WakeUp(trusted, ok) => trusted && s.sleep.SLEEP? && !ok
    case EngageKill(ok) => !ok
    case DisengageKill(_) => false
    case RunDurable(envelope, writable, result, oks) =>
      if envelope.None? || envelope.value.epoch != s.epoch then oks != [] && !oks[0]
      else if !writable then true
      else
        exists k | 0 <= k < |oks| ::
          k < |Execute(p, envelope.value.request, ContextOf(s), s.killed, result).1| && !oks[k]
  }

  lemma {:induction false} PersistAllHealth(s: SessionState, kinds: seq<Kind>, oks: seq<bool>)
    ensures PersistAll(s, kinds, oks).healthy <==> s.healthy && forall k | 0 <= k < |oks| :: k < |kinds| ==> oks[k]
  {
    if kinds == [] {
    } else {
      PersistAllHealth(s, kinds[..|kinds| - 1], oks);
    }
  }

  /** A healthy session stays so exactly when every append of the action succeeds. */
  lemma StepHealth(p: Policy, s: SessionState, a: Action)
    requires s.healthy
    ensures Step(p, s, a).healthy <==> !AppendFails(p, s, a)
  {
    hide Execute, IssueGrant;
    if a.RunDurable? && a.envelope.Some? && a.envelope.value.epoch == s.epoch && a.writable {
      var kinds := Execute(p, a.envelope.value.request, ContextOf(s), s.killed, a.result).1;
      PersistAllHealth(s.(log := AppendEvents(s.log, kinds, s.sleep)), kinds, a.oks);
    }
  }

  lemma {:induction false} HealthyMeansNoFailure(p: Policy, s: SessionState, actions: seq<Action>, n: nat)
    requires n <= |actions| && s.healthy
    ensures After(p, s, actions[..n]).healthy
       <==> forall k | 0 <= k < n :: !AppendFails(p, After(p, s, actions[..k]), actions[k])
    decreases n
  {
    hide Step, AppendFails;
    assert actions[..0] == [];
    if n == 0 {
    } else {
      var before := After(p, s, actions[..n - 1]);
      AfterNext(p, s, actions, n - 1);
      StepEffects(p, before, actions[n - 1]);
      HealthyMeansNoFailure(p, s, actions, n - 1);
      if before.healthy {
        StepHealth(p, before, actions[n - 1]);
      }
    }
  }

  // ---- approval ----

  lemma {:induction false} ConfirmationWasRecorded(p: Policy, s: SessionState, actions: seq<Action>, n: nat, c: Confirmation)
    requires n <= |actions| && s.confirmations == [] && c in After(p, s, actions[..n]).confirmations
    ensures exists j | 0 <= j < n :: actions[j].Confirm? && actions[j].record == c
    decreases n
  {
    hide IssueGrant, Execute;
    assert actions[..0] == [];
    if n == 0 {
    } else {
      var m := n - 1;
      var before, a := After(p, s, actions[..m]), actions[m];
      AfterNext(p, s, actions, m);
      ConfirmationsAfterStep(p, before, a);
      if c in before.confirmations {
        ConfirmationWasRecorded(p, s, actions, m, c);
      } else {
        assert actions[m].Confirm? && actions[m].record == c;
      }
    }
  }

  lemma ConfirmationsAfterStep(p: Policy, s: SessionState, a: Action)
    ensures Step(p, s, a).confirmations == s.confirmations + if a.Confirm? then [a.record] else []
  {
    hide IssueGrant, Execute;
    if a.RunDurable? && s.healthy && a.envelope.Some? && a.envelope.value.epoch == s.epoch && a.writable {
      var kinds := Execute(p, a.envelope.value.request, ContextOf(s), s.killed, a.result).1;
      PersistAllKeeps(s.(log := AppendEvents(s.log, kinds, s.sleep)), kinds, a.oks);
    }
    assert s.confirmations + [] == s.confirmations;
  }

  /**
   * Safety over whole runs. Whenever an execution starts, its envelope names the live epoch, no
   * audit append has failed since boot, the session was woken by a trusted action and not put to
   * sleep since, every engagement of the kill switch has been lifted with the control key, some
   * grant issued earlier in this session for the same task and capability, not revoked since,
   * contains the resource, and where approval is needed it was confirmed earlier.
   */
  lemma ExecutionIsAuthorized(p: Policy, epoch: SafeInteger, key: nat, actions: seq<Action>, n: nat)
    requires n < |actions| && StartsIn(p, After(p, Fresh(epoch, key), actions[..n]), actions[n])
    ensures actions[n].envelope.Some? && actions[n].envelope.value.epoch == epoch
    ensures forall k | 0 <= k < n :: !AppendFails(p, After(p, Fresh(epoch, key), actions[..k]), actions[k])
    ensures exists w | 0 <= w < n ::
      actions[w].WakeUp? && actions[w].trusted && forall k | w < k < n :: !actions[k].GoToSleep?
    ensures forall e | 0 <= e < n && actions[e].EngageKill? ::
      exists d | e < d < n :: actions[d] == DisengageKill(Some(key))
    ensures actions[n].envelope.value.request.Some?
    ensures var req := actions[n].envelope.value.request.value;
            req.taskId.Some? &&
            exists j, g: Grant :: IssuedAt(p, actions, n, j, g) && Justifies(p, g, req)
    ensures var req := actions[n].envelope.value.request.value;
            req.taskId.Some? &&
            exists def ::
              && Declares(p.registry, req.capability, def)
              && (def.tier >= 2 || def.requiresConfirmation ==> exists j | 0 <= j < n :: Confirms(actions[j], req))
  {
    hide Step, Execute, AppendFails, Permitted, IssueGrant;
    var s := Fresh(epoch, key);
    var now, a := After(p, s, actions[..n]), actions[n];
    KeyStays(p, s, actions[..n]);
    HealthyMeansNoFailure(p, s, actions, n);
    StartedExactly(p, a.envelope.value.request, ContextOf(now), now.killed, a.result);
    AwakeWasWoken(p, s, actions, n);
    forall e | 0 <= e < n && actions[e].EngageKill?
      ensures exists d | e < d < n :: actions[d] == DisengageKill(Some(key))
    {
      KillWasLifted(p, s, actions, n, e);
    }
    var req := a.envelope.value.request.value;
    assert Permitted(p, req, ContextOf(now)) && Approved(p, req, ContextOf(now));
    PermittedIsDeclared(p, req, ContextOf(now));
    var g := JustifyingGrant(p, req, ContextOf(now));
    LiveGrantWasIssued(p, s, actions, n, g);
    var def := Lookup(p.registry, req.capability).value;
    LookupExactly(p.registry, req.capability);
    if NeedsConfirmation(def) {
      ConfirmationWasRecorded(p, s, actions, n, KeyOf(req));
      var j :| 0 <= j < n && actions[j].Confirm? && actions[j].record == KeyOf(req);
      assert Confirms(actions[j], req);
    }
    assert Declares(p.registry, req.capability, def)
        && (def.tier >= 2 || def.requiresConfirmation ==> exists j | 0 <= j < n :: Confirms(actions[j], req));
  }

  /** The action records a confirmation of this request: same task, capability, operation and resource. */
  predicate Confirms(a: Action, req: Request) {
    && a.Confirm? && req.taskId == Some(a.record.taskId)
    && a.record.capability == req.capability && a.record.operation == req.operation
    && a.record.resource == match req.resource case None => [] case Some(r) => r
  }

  lemma PermittedIsDeclared(p: Policy, req: Request, ctx: Context)
    requires Permitted(p, req, ctx)
    ensures Lookup(p.registry, req.capability).Some? && req.taskId.Some?
  {
  }

  /** The grant is for the task and the capability that the request names and contains its resource, if it is scoped. */
  ghost predicate Justifies(p: Policy, g: Grant, req: Request) {
    exists def :: Declares(p.registry, req.capability, def) && Backs(p.lower, def, req, g)
  }

  lemma JustifyingGrant(p: Policy, req: Request, ctx: Context) returns (g: Grant)
    requires Permitted(p, req, ctx)
    ensures g in ctx.grants && !g.revoked && Justifies(p, g, req)
  {
    hide WithinScope, Declares, Covers;
    var def := Lookup(p.registry, req.capability).value;
    EntitledExactly(p, req, ctx, def);
    g :| g in ctx.grants && Backs(p.lower, def, req, g);
  }

  // ---- the durable trail ----

  /** The sleep state and the grants, as a reader of the durable events since boot would rebuild them. */
  function Replay(trail: seq<Durable>): (Sleep, seq<Grant>) {
    if trail == [] then (SLEEP, [])
    else
      var (sleep, grants) := Replay(trail[..|trail| - 1]);
      match trail[|trail| - 1].deed
      case Issued(g) => (sleep, grants + [g])
      case Revoked(id) => (sleep, Revoke(grants, id))
      case Slept => (SLEEP, grants)
      case Woke => (AWAKE, grants)
      case Logged(_) => (sleep, grants)
  }

  predicate TrailAgrees(s: SessionState) { s.healthy ==> Replay(s.trail) == (s.sleep, s.grants) }

  lemma ReplayNext(trail: seq<Durable>, d: Durable)
    ensures var (sleep, grants) := Replay(trail);
            Replay(trail + [d]) ==
              match d.deed
              case Issued(g) => (sleep, grants + [g])
              case Revoked(id) => (sleep, Revoke(grants, id))
              case Slept => (SLEEP, grants)
              case Woke => (AWAKE, grants)
              case Logged(_) => (sleep, grants)
  {
    assert (trail + [d])[..|trail|] == trail;
  }

  lemma {:induction false} ReplayLogged(s: SessionState, kinds: seq<Kind>, oks: seq<bool>)
    ensures Replay(PersistAll(s, kinds, oks).trail) == Replay(s.trail)
  {
    hide Replay;
    if kinds == [] {
    } else {
      var n := |kinds| - 1;
      ReplayLogged(s, kinds[..n], oks);
      var t := PersistAll(s, kinds[..n], oks);
      ReplayNext(t.trail, Durable(t.epoch, t.sleep, Logged(kinds[n])));
    }
  }

  lemma StepKeepsTrail(p: Policy, s: SessionState, a: Action)
    requires TrailAgrees(s)
    ensures TrailAgrees(Step(p, s, a))
  {
    hide Replay, Execute, IssueGrant;
    forall d: Durable
      ensures var (sleep, grants) := Replay(s.trail);
              Replay(s.trail + [d]) ==
                match d.deed
                case Issued(g) => (sleep, grants + [g])
                case Revoked(id) => (sleep, Revoke(grants, id))
                case Slept => (SLEEP, grants)
                case Woke => (AWAKE, grants)
                case Logged(_) => (sleep, grants)
    {
      ReplayNext(s.trail, d);
    }
    if a.RunDurable? && s.healthy && a.envelope.Some? && a.envelope.value.epoch == s.epoch && a.writable {
      var kinds := Execute(p, a.envelope.value.request, ContextOf(s), s.killed, a.result).1;
      var t := s.(log := AppendEvents(s.log, kinds, s.sleep));
      PersistAllKeeps(t, kinds, a.oks);
      ReplayLogged(t, kinds, a.oks);
    }
  }

  /**
   * As long as no audit append has failed, replaying the durable events since boot gives exactly
   * the session's sleep state and its grants in order, revoked ones marked.
   */
  lemma {:induction false} TrailAgreesThroughout(p: Policy, epoch: SafeInteger, key: nat, actions: seq<Action>)
    ensures TrailAgrees(After(p, Fresh(epoch, key), actions))
  {
    if actions == [] {
      var d := Durable(epoch, SLEEP, Slept);
      ReplayNext([], d);
      assert [] + [d] == [d];
    } else {
      var m := |actions| - 1;
      TrailAgreesThroughout(p, epoch, key, actions[..m]);
      StepKeepsTrail(p, After(p, Fresh(epoch, key), actions[..m]), actions[m]);
    }
  }

  /** The replay misses nothing that executions log: none of their events is a session event. */
  lemma ExecutionLogsNoSessionEvent(p: Policy, request: Option<Request>, ctx: Context, killed: bool, result: AdapterResult)
    ensures forall k | k in Execute(p, request, ctx, killed, result).1 ::
      !k.CapabilityIssued? && !k.CapabilityRevoked? && !k.SleepEntered? && !k.SleepWoken? && !k.KillEngaged?
  {
    hide AdapterFor, ShapedDecision, HasLive, HasScope, HasRevoked, IsLegacy, BoundRoot;
  }

  /**
   * Rolling back a failed issuance removes exactly the new grant if and only if no earlier grant
   * carries the same id; otherwise its namesakes are lost as well.
   */
  lemma RollbackExactly(p: Policy, s: SessionState, issuance: Issuance)
    requires IssueGrant(p, issuance).Some?
    ensures GrantStep(p, s, issuance, false).grants == s.grants
       <==> forall g | g in s.grants :: g.grantId != issuance.grantId
  {
    hide Lookup, WellFormedScope;
    var g := IssueGrant(p, issuance).value;
    WithoutKeeps(s.grants, [g], issuance.grantId);
    assert Without([g], issuance.grantId) == [];
    assert Without(s.grants, issuance.grantId) + [] == Without(s.grants, issuance.grantId);
    WithoutNothing(s.grants, issuance.grantId);
  }

  lemma {:induction false} WithoutKeeps(a: seq<Grant>, b: seq<Grant>, id: Str)
    ensures Without(a + b, id) == Without(a, id) + Without(b, id)
  {
    if a == [] {
      assert a + b == b;
    } else {
      assert (a + b)[1..] == a[1..] + b;
      WithoutKeeps(a[1..], b, id);
    }
  }

  lemma {:induction false} WithoutNothing(a: seq<Grant>, id: Str)
    ensures Without(a, id) == a <==> forall g | g in a :: g.grantId != id
  {
    if a == [] {
    } else {
      WithoutNothing(a[1..], id);
      assert a == [a[0]] + a[1..];
      if a[0].grantId != id && Without(a, id) == a {
        assert Without(a, id)[1..] == Without(a[1..], id);
      }
      if forall g | g in a :: g.grantId != id {
        assert a[0] in a;
        assert forall g | g in a[1..] :: g in a;
      }
      assert a[0].grantId == id ==> a[0] !in Without(a, id);
    }
  }
}
