/**
 * The secure session of src/persistence/session.ts as a state machine: trusted grants,
 * revocations, confirmations, sleep, wake and kill, and the durable execution entry. Any append
 * to the audit file may fail. The durable trail carries its payloads as data, not as detail text.
 */
module Session {
  import opened Text
  import opened Kernel
  import opened Authorize
  import opened Executor

  datatype Deed =
    | Issued(grant: Grant)
    | Revoked(grantId: Str)
    | Slept
    | Woke
    | Logged(kind: Kind)

  datatype Durable = Durable(epoch: nat, sleep: Sleep, deed: Deed)

  datatype Envelope = Envelope(epoch: nat, request: Option<Request>)

  datatype SessionState = SessionState(
    epoch: SafeInteger, key: nat, sleep: Sleep, killed: bool, grants: seq<Grant>,
    confirmations: seq<Confirmation>, log: seq<LogEvent>, healthy: bool, trail: seq<Durable>)

  datatype Result = Ran(execution: Execution) | RefusedEarly(stage: EarlyStage)
  datatype EarlyStage = Unhealthy | MalformedEnvelope | StaleEpoch | SinkUnwritable

  /** A fresh session: asleep, nothing granted, behind the durable note that boot has finished. */
  function Fresh(epoch: SafeInteger, key: nat): SessionState {
    SessionState(epoch, key, SLEEP, false, [], [], [], true, [Durable(epoch, SLEEP, Slept)])
  }

  // ---- steps ----

  datatype Action =
    | GrantTo(issuance: Issuance, ok: bool)
    | RevokeGrant(grantId: Str, ok: bool)
    | Confirm(record: Confirmation, ok: bool)
    | GoToSleep(ok: bool)
    | WakeUp(trusted: bool, ok: bool)
    | EngageKill(ok: bool)
    | DisengageKill(token: Option<nat>)
    | RunDurable(envelope: Option<Envelope>, writable: bool, result: AdapterResult, oks: seq<bool>)

  /** One append to the audit file, which may fail. */
  function Persist(s: SessionState, deed: Deed, ok: bool): SessionState {
    if ok then s.(trail := s.trail + [Durable(s.epoch, s.sleep, deed)]) else s.(healthy := false)
  }

  function GrantStep(p: Policy, s: SessionState, issuance: Issuance, ok: bool): SessionState {
    var g := IssueGrant(p, issuance);
    if g.None? then s
    else
      var t := Persist(s.(grants := s.grants + [g.value]), Issued(g.value), ok);
      if ok then t else t.(grants := Without(t.grants, g.value.grantId))
  }

  /** The rollback of a failed issuance drops every grant with the same id. */
  function Without(grants: seq<Grant>, grantId: Str): (r: seq<Grant>)
    ensures forall g :: g in r <==> g in grants && g.grantId != grantId
  {
    if grants == [] then []
    else if grants[0].grantId == grantId then Without(grants[1..], grantId)
    else [grants[0]] + Without(grants[1..], grantId)
  }

  /** Appends the events one by one, going on after a failure. */
  function PersistAll(s: SessionState, kinds: seq<Kind>, oks: seq<bool>): SessionState {
    if kinds == [] then s
    else
      var n := |kinds| - 1;
      Persist(PersistAll(s, kinds[..n], oks), Logged(kinds[n]), n >= |oks| || oks[n])
  }

  function ContextOf(s: SessionState): Context { Context(s.sleep, s.grants, s.confirmations, s.log) }

  function RunStep(p: Policy, s: SessionState, envelope: Option<Envelope>, writable: bool, result: AdapterResult, oks: seq<bool>)
    : (Result, SessionState)
  {
    var ok := |oks| == 0 || oks[0];
    if !s.healthy then (RefusedEarly(Unhealthy), s)
    else if envelope.None? then (RefusedEarly(MalformedEnvelope), Persist(s, Logged(RequestValidationFailed), ok))
    else if envelope.value.epoch != s.epoch then (RefusedEarly(StaleEpoch), Persist(s, Logged(AuthorizationDenied), ok))
    else if !writable then (RefusedEarly(SinkUnwritable), s.(healthy := false))
    else
      var (execution, kinds) := Execute(p, envelope.value.request, ContextOf(s), s.killed, result);
      (Ran(execution), PersistAll(s.(log := AppendEvents(s.log, kinds, s.sleep)), kinds, oks))
  }

  function Step(p: Policy, s: SessionState, a: Action): SessionState {
    match a
    case GrantTo(issuance, ok) => GrantStep(p, s, issuance, ok)
    case RevokeGrant(grantId, ok) => Persist(s.(grants := Revoke(s.grants, grantId)), Revoked(grantId), ok)
    case Confirm(record, ok) => Persist(s.(confirmations := s.confirmations + [record]), Logged(ConfirmationRecorded), ok)
    case GoToSleep(ok) => Persist(s.(sleep := SLEEP), Slept, ok)
    case WakeUp(trusted, ok) => if trusted && s.sleep.SLEEP? then Persist(s.(sleep := AWAKE), Woke, ok) else s
    case EngageKill(ok) => Persist(s.(killed := true), Logged(KillEngaged), ok)
    case DisengageKill(token) => if token == Some(s.key) then s.(killed := false) else s
    case RunDurable(envelope, writable, result, oks) => RunStep(p, s, envelope, writable, result, oks).1
  }

  // ---- the session object ----

  class SecureSession {
    const policy: Policy
    const epoch: SafeInteger
    const controlKey: nat
    var sleep: Sleep
    var killed: bool
    var grants: seq<Grant>
    var confirmations: seq<Confirmation>
    var log: seq<LogEvent>
    var auditHealthy: bool
    var trail: seq<Durable>

    constructor (policy: Policy, epoch: SafeInteger, controlKey: nat)
      ensures this.policy == policy && Now() == Fresh(epoch, controlKey)
    {
      this.policy, this.epoch, this.controlKey := policy, epoch, controlKey;
      sleep, killed, grants, confirmations, log := SLEEP, false, [], [], [];
      auditHealthy, trail := true, [Durable(epoch, SLEEP, Slept)];
    }

    ghost function Now(): SessionState
      reads this
    {
      SessionState(epoch, controlKey, sleep, killed, grants, confirmations, log, auditHealthy, trail)
    }

    method PersistDeed(deed: Deed, ok: bool)
      modifies this`trail, this`auditHealthy
      ensures Now() == Persist(old(Now()), deed, ok)
    {
      if ok {
        trail := trail + [Durable(epoch, sleep, deed)];
      } else {
        auditHealthy := false;
      }
    }

    method GrantToSession(issuance: Issuance, ok: bool) returns (issued: bool)
      modifies this
      ensures Now() == Step(policy, old(Now()), GrantTo(issuance, ok))
      ensures issued <==> IssueGrant(policy, issuance).Some? && ok
    {
      hide IssueGrant;
      var g := IssueGrant(policy, issuance);
      if g.None? {
        return false;
      }
      grants := grants + [g.value];
      PersistDeed(Issued(g.value), ok);
      if !ok {
        grants := Without(grants, g.value.grantId);
      }
      return ok;
    }

    method RevokeSessionGrant(grantId: Str, ok: bool)
      modifies this
      ensures Now() == Step(policy, old(Now()), RevokeGrant(grantId, ok))
    {
      grants := Revoke(grants, grantId);
      PersistDeed(Revoked(grantId), ok);
    }

    method ConfirmInSession(record: Confirmation, ok: bool)
      modifies this
      ensures Now() == Step(policy, old(Now()), Confirm(record, ok))
    {
      confirmations := confirmations + [record];
      PersistDeed(Logged(ConfirmationRecorded), ok);
    }

    method SleepSession(ok: bool)
      modifies this
      ensures Now() == Step(policy, old(Now()), GoToSleep(ok))
    {
      sleep := SLEEP;
      PersistDeed(Slept, ok);
    }

    method WakeSession(trusted: bool, ok: bool) returns (woken: bool)
      modifies this
      ensures Now() == Step(policy, old(Now()), WakeUp(trusted, ok))
      ensures woken <==> old(sleep).SLEEP? && sleep.AWAKE?
    {
      if trusted && sleep != AWAKE {
        sleep := AWAKE;
        PersistDeed(Woke, ok);
        return true;
      }
      return false;
    }

    method EngageSessionKill(ok: bool)
      modifies this
      ensures Now() == Step(policy, old(Now()), EngageKill(ok))
    {
      killed := true;
      PersistDeed(Logged(KillEngaged), ok);
    }

    method DisengageSessionKill(token: Option<nat>) returns (changed: bool)
      modifies this`killed
      ensures Now() == Step(policy, old(Now()), DisengageKill(token))
      ensures changed <==> old(killed) && !killed
    {
      var before := killed;
      if token == Some(controlKey) {
        killed := false;
      }
      return before && !killed;
    }

    method Execute(envelope: Option<Envelope>, writable: bool, result: AdapterResult, oks: seq<bool>)
      returns (r: Result, auditPersisted: bool)
      modifies this
      ensures (r, Now()) == RunStep(policy, old(Now()), envelope, writable, result, oks)
      ensures auditPersisted <==> auditHealthy
    {
      hide Executor.Execute;
      var ok := |oks| == 0 || oks[0];
      if !auditHealthy {
        return RefusedEarly(Unhealthy), false;
      }
      if envelope.None? {
        PersistDeed(Logged(RequestValidationFailed), ok);
        return RefusedEarly(MalformedEnvelope), auditHealthy;
      }
      if envelope.value.epoch != epoch {
        PersistDeed(Logged(AuthorizationDenied), ok);
        return RefusedEarly(StaleEpoch), ok;
      }
      if !writable {
        auditHealthy := false;
        return RefusedEarly(SinkUnwritable), false;
      }
      var before := |log|;
      ghost var kinds := Executor.Execute(policy, envelope.value.request, ContextOf(Now()), killed, result).1;
      AppendedKinds(log, kinds, sleep);
      var execution, newLog := Run(policy, envelope.value.request, Context(sleep, grants, confirmations, log), killed, result);
      log := newLog;
      var persisted := PersistLogDelta(before, oks, kinds);
      return Ran(execution), persisted;
    }

    /** Appends the events logged since `fromLength` to the audit file. */
    method PersistLogDelta(fromLength: nat, oks: seq<bool>, ghost kinds: seq<Kind>) returns (ok: bool)
      requires fromLength + |kinds| == |log| && auditHealthy
      requires forall k | 0 <= k < |kinds| :: log[fromLength + k].kind == kinds[k]
      modifies this`trail, this`auditHealthy
      ensures Now() == PersistAll(old(Now()), kinds, oks)
      ensures ok <==> auditHealthy
    {
      ok := true;
      assert kinds[..0] == [];
      for k := 0 to |log| - fromLength
        invariant Now() == PersistAll(old(Now()), kinds[..k], oks)
        invariant auditHealthy <==> ok
      {
        assert kinds[..k + 1][..k] == kinds[..k] && kinds[..k + 1][k] == kinds[k];
        var appended := k >= |oks| || oks[k];
        PersistDeed(Logged(log[fromLength + k].kind), appended);
        if !appended {
          ok := false;
        }
      }
      assert kinds[..|kinds|] == kinds;
    }
  }
}
