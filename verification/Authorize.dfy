/**
 * The authorization pipeline of src/kernel/authorize.ts. The registry of capability definitions
 * is a parameter; `lower` is String.prototype.toLowerCase.
 */
module Authorize {
  import opened Text
  import opened Scope
  import opened Kernel

  datatype Policy = Policy(registry: seq<Definition>, lower: Str -> Str)

  datatype Context = Context(sleep: Sleep, grants: seq<Grant>, confirmations: seq<Confirmation>, log: seq<LogEvent>)

  datatype Verdict = Deny | RequireConfirmation | Allow

  datatype CheckName =
    | RequestValid | CapabilityLegacy | CapabilityDeclared | TaskBound | TaskGrant | SleepOpen | OperationDeclared
    | ScopePresent | ScopeInside | ScopeAbsent | RiskTierKnown | ConfirmationNeeded | ConfirmationPresent

  datatype Check = Check(name: CheckName, passed: bool)

  datatype Decision = Decision(
    verdict: Verdict, capability: Str, operation: Str, taskId: Option<Str>, tier: RiskTier, checks: seq<Check>)

  // ---- lookups ----

  /** The first definition with this id wins. */
  function Lookup(registry: seq<Definition>, id: Str): (d: Option<Definition>)
    ensures d.Some? ==> d.value.id == id
  {
    if registry == [] then None
    else if registry[0].id == id then Some(registry[0])
    else Lookup(registry[1..], id)
  }

  predicate IsPathFamily(f: Family) { f.Filesystem? || f.Git? || f.Memory? || f.Browser? || f.Terminal? }

  predicate WithinScope(p: Policy, def: Definition, scope: Str, resource: Str) {
    if def.family.Network? then DomainWithin(p.lower, scope, resource)
    else IsPathFamily(def.family) && PathWithin(scope, resource)
  }

  predicate WellFormedScope(p: Policy, def: Definition, scope: Str) {
    if !def.scoped then scope == []
    else if def.family.Network? then NormalDomain(p.lower, scope).Some?
    else IsPathFamily(def.family) && Normalized(scope).Some?
  }

  predicate IsLive(g: Grant, taskId: Str, capability: Str) {
    g.taskId == taskId && g.capability == capability && !g.revoked
  }

  predicate HasLive(grants: seq<Grant>, taskId: Str, capability: Str) {
    exists g | g in grants :: IsLive(g, taskId, capability)
  }

  predicate HasRevoked(grants: seq<Grant>, taskId: Str, capability: Str) {
    exists g | g in grants :: g.taskId == taskId && g.capability == capability && g.revoked
  }

  predicate HasScope(p: Policy, def: Definition, grants: seq<Grant>, taskId: Str, resource: Str) {
    exists g | g in grants :: IsLive(g, taskId, def.id) && WithinScope(p, def, g.scope, resource)
  }

  // ---- legacy capabilities and their frozen evaluator ----

  const SYSTEM_SLEEP: Str := Ascii("system.sleep")
  const AUDIT_APPEND: Str := Ascii("audit.append")
  const AUDIT_READ: Str := Ascii("audit.read")

  datatype Risk = Low | Medium | High

  datatype Declaration = Declaration(id: Str, risk: Risk, requiresConfirmation: bool, sleepGated: bool)

  const DECLARATIONS: seq<Declaration> := [
    Declaration(SYSTEM_SLEEP, Low, false, false),
    Declaration(AUDIT_APPEND, Low, false, false),
    Declaration(AUDIT_READ, Low, false, false)]

  function Declared(declarations: seq<Declaration>, id: Str): Option<Declaration> {
    if declarations == [] then None
    else if declarations[0].id == id then Some(declarations[0])
    else Declared(declarations[1..], id)
  }

  predicate IsLegacy(id: Str) { Declared(DECLARATIONS, id).Some? }

  /** A proposal of the first policy engine; the pipeline never fills in category and risk. */
  datatype LegacyProposal = LegacyProposal(action: Str, capability: Str, categoryAllowed: bool, risk: Option<Risk>)

  const MAX_ACTION_UNITS: nat := 256
  const MAX_CAPABILITY_UNITS: nat := 128

  /** evaluateProposal: the order of its stages matters. */
  function Evaluate(p: LegacyProposal, sleep: Sleep): Verdict {
    if p.action == [] || |p.action| > MAX_ACTION_UNITS || p.capability == [] || |p.capability| > MAX_CAPABILITY_UNITS then Deny
    else if !p.categoryAllowed then Deny
    else
      var d := Declared(DECLARATIONS, p.capability);
      if d.None? then Deny
      else
        var risk := if p.risk.Some? then p.risk.value else d.value.risk;
        if risk != Low || d.value.requiresConfirmation then RequireConfirmation
        else if sleep.SLEEP? && d.value.sleepGated then Deny
        else if d.value.id == SYSTEM_SLEEP || d.value.id == AUDIT_APPEND then Allow
        else Deny
  }

  /** authorizeLegacy hands the request on without category and risk. */
  function LegacyVerdict(req: Request, sleep: Sleep): Verdict {
    Evaluate(LegacyProposal(req.capability + [COLON] + req.operation, req.capability, true, None), sleep)
  }

  lemma LegacyIds(id: Str)
    ensures IsLegacy(id) <==> id == SYSTEM_SLEEP || id == AUDIT_APPEND || id == AUDIT_READ
    ensures IsLegacy(id) ==> Declared(DECLARATIONS, id) == Some(Declaration(id, Low, false, false)) && 1 <= |id| <= 12
    ensures SYSTEM_SLEEP != AUDIT_READ && AUDIT_APPEND != AUDIT_READ
  {
    assert SYSTEM_SLEEP[0] != AUDIT_READ[0] && |AUDIT_APPEND| != |AUDIT_READ|;
    var two := DECLARATIONS[1..];
    var one := two[1..];
    assert one == [DECLARATIONS[2]] && one[1..] == [] && two[0] == DECLARATIONS[1];
    assert Declared(one, id) == if id == AUDIT_READ then Some(DECLARATIONS[2]) else None;
    assert Declared(two, id) == if id == AUDIT_APPEND then Some(DECLARATIONS[1]) else Declared(one, id);
  }

  /**
   * Through every stage of the evaluator a legacy request is denied exactly when it would read the
   * audit or its action is overlong; otherwise it is allowed. It makes no difference whether the
   * system sleeps, and no human is ever asked.
   */
  lemma LegacyExactly(req: Request, sleep: Sleep)
    requires IsLegacy(req.capability)
    ensures LegacyVerdict(req, sleep) ==
              if req.capability == AUDIT_READ || |req.capability| + 1 + |req.operation| > MAX_ACTION_UNITS then Deny else Allow
  {
    hide IsLegacy, Declared;
    LegacyIds(req.capability);
  }

  // ---- the pipeline, stage by stage ----

  /** The first stage that refuses the request, as the event it logs. */
  function Denial(p: Policy, request: Option<Request>, ctx: Context): Option<Kind> {
    if request.None? then Some(RequestValidationFailed)
    else
      var req := request.value;
      if IsLegacy(req.capability) then
        if LegacyVerdict(req, ctx.sleep).Deny? then Some(AuthorizationDenied) else None
      else
        var def := Lookup(p.registry, req.capability);
        if def.None? then Some(CapabilityLookupFailed)
        else if req.taskId.None? then Some(AuthorizationUnknownTask)
        else if !HasLive(ctx.grants, req.taskId.value, req.capability) then
          Some(if HasRevoked(ctx.grants, req.taskId.value, req.capability) then AuthorizationDenied else AuthorizationNoGrant)
        else if ctx.sleep.SLEEP? && def.value.sleepGated then Some(SleepDenied)
        else if req.operation !in def.value.operations then Some(OperationDenied)
        else if def.value.scoped then
          if req.resource.None? || !HasScope(p, def.value, ctx.grants, req.taskId.value, req.resource.value) then Some(ScopeDenied)
          else None
        else if req.resource.Some? then Some(ScopeDenied)
        else None
  }

  predicate NeedsConfirmation(def: Definition) { def.requiresConfirmation || def.tier >= 2 }

  function KeyOf(req: Request): Confirmation
    requires req.taskId.Some?
  {
    Confirmation(req.taskId.value, req.capability, req.operation, if req.resource.None? then [] else req.resource.value)
  }

  /** The verdict and the one event that names it. */
  function Outcome(p: Policy, request: Option<Request>, ctx: Context): (Verdict, Kind) {
    var denial := Denial(p, request, ctx);
    if denial.Some? then (Deny, denial.value)
    else
      var req := request.value;
      if IsLegacy(req.capability) then
        var verdict := LegacyVerdict(req, ctx.sleep);
        (verdict, if verdict.Allow? then AuthorizationAllowed else ConfirmationRequired)
      else if !NeedsConfirmation(Lookup(p.registry, req.capability).value) then (Allow, AuthorizationAllowed)
      else if KeyOf(req) in ctx.confirmations then (Allow, ConfirmationSatisfied)
      else (RequireConfirmation, ConfirmationRequired)
  }

  /** A refused request's checks all passed but the last; otherwise only "confirmation needed" may be negative. */
  predicate ChecksExplain(d: Decision) {
    var n := |d.checks| - 1;
    && n >= 0
    && (d.verdict.Deny? ==> !d.checks[n].passed && forall k | 0 <= k < n :: d.checks[k].passed)
    && (!d.verdict.Deny? ==> forall k | 0 <= k <= n :: d.checks[k].passed || d.checks[k].name.ConfirmationNeeded?)
  }

  /** The check whose failure this event reports. */
  predicate Reports(kind: Kind, name: CheckName) {
    match name
    case RequestValid => kind.RequestValidationFailed?
    case CapabilityDeclared => kind.CapabilityLookupFailed?
    case TaskBound => kind.AuthorizationUnknownTask?
    case TaskGrant => kind.AuthorizationNoGrant? || kind.AuthorizationDenied?
    case SleepOpen => kind.SleepDenied?
    case OperationDeclared => kind.OperationDenied?
    case ScopePresent | ScopeInside | ScopeAbsent => kind.ScopeDenied?
    case _ => false
  }

  predicate AllPassed(checks: seq<Check>) { forall k | 0 <= k < |checks| :: checks[k].passed }

  function Pass(checks: seq<Check>, name: CheckName): (r: seq<Check>)
    requires AllPassed(checks)
    ensures AllPassed(r)
  {
    checks + [Check(name, true)]
  }

  function Refuse(req: Request, tier: RiskTier, checks: seq<Check>, name: CheckName): (d: Decision)
    requires AllPassed(checks)
    ensures ChecksExplain(d) && d.verdict.Deny? && d.tier == tier && d.checks != [] && d.checks[|d.checks| - 1].name == name
  {
    Decision(Deny, req.capability, req.operation, req.taskId, tier, checks + [Check(name, false)])
  }

  function Conclude(req: Request, tier: RiskTier, verdict: Verdict, checks: seq<Check>, last: Check): (d: Decision)
    requires AllPassed(checks) && !verdict.Deny? && (last.passed || last.name.ConfirmationNeeded?)
    ensures ChecksExplain(d) && d.verdict == verdict && d.tier == tier
  {
    Decision(verdict, req.capability, req.operation, req.taskId, tier, checks + [last])
  }

  method Authorize(p: Policy, request: Option<Request>, ctx: Context) returns (d: Decision, log: seq<LogEvent>)
    ensures (d.verdict, log) == (Outcome(p, request, ctx).0, AppendEvent(ctx.log, Outcome(p, request, ctx).1, ctx.sleep))
    ensures request.Some? ==>
              d.capability == request.value.capability && d.operation == request.value.operation && d.taskId == request.value.taskId
    ensures request.None? || !IsLegacy(request.value.capability) ==> ChecksExplain(d)
    ensures (request.None? || !IsLegacy(request.value.capability)) && d.verdict.Deny? ==>
              d.checks != [] && Reports(Outcome(p, request, ctx).1, d.checks[|d.checks| - 1].name)
    ensures d.tier ==
              if request.None? then 3
              else if IsLegacy(request.value.capability) then 0
              else match Lookup(p.registry, request.value.capability) case None => 3 case Some(def) => def.tier
  {
    hide IsLegacy, LegacyVerdict, HasLive, HasRevoked, HasScope, Lookup, KeyOf, NeedsConfirmation, AppendEvent;
    if request.None? {
      d := Decision(Deny, Ascii("unknown"), Ascii("unknown"), None, 3, [Check(RequestValid, false)]);
      return d, AppendEvent(ctx.log, RequestValidationFailed, ctx.sleep);
    }
    var req := request.value;
    if IsLegacy(req.capability) {
      var verdict := LegacyVerdict(req, ctx.sleep);
      var both := [Check(RequestValid, true), Check(CapabilityLegacy, true)];
      d := Decision(verdict, req.capability, req.operation, req.taskId, 0, both);
      return d, AppendEvent(ctx.log,
        match verdict case Allow => AuthorizationAllowed case RequireConfirmation => ConfirmationRequired case Deny => AuthorizationDenied,
        ctx.sleep);
    }
    var checks := Pass([], RequestValid);
    hide AllPassed, ChecksExplain;
    var found := Lookup(p.registry, req.capability);
    if found.None? {
      return Refuse(req, 3, checks, CapabilityDeclared), AppendEvent(ctx.log, CapabilityLookupFailed, ctx.sleep);
    }
    var def := found.value;
    checks := Pass(checks, CapabilityDeclared);
    if req.taskId.None? {
      return Refuse(req, def.tier, checks, TaskBound), AppendEvent(ctx.log, AuthorizationUnknownTask, ctx.sleep);
    }
    var taskId := req.taskId.value;
    if !HasLive(ctx.grants, taskId, def.id) {
      var revoked := HasRevoked(ctx.grants, taskId, def.id);
      return Refuse(req, def.tier, checks, TaskGrant),
        AppendEvent(ctx.log, if revoked then AuthorizationDenied else AuthorizationNoGrant, ctx.sleep);
    }
    d, log := AuthorizeGranted(p, req, def, ctx, Pass(checks, TaskGrant));
  }

  /** The steps behind the lookup of a live grant. */
  method AuthorizeGranted(p: Policy, req: Request, def: Definition, ctx: Context, passed: seq<Check>)
    returns (d: Decision, log: seq<LogEvent>)
    requires !IsLegacy(req.capability) && Lookup(p.registry, req.capability) == Some(def) && AllPassed(passed)
    requires req.taskId.Some? && HasLive(ctx.grants, req.taskId.value, req.capability)
    ensures (d.verdict, log) == (Outcome(p, Some(req), ctx).0, AppendEvent(ctx.log, Outcome(p, Some(req), ctx).1, ctx.sleep))
    ensures d.capability == req.capability && d.operation == req.operation && d.taskId == req.taskId && d.tier == def.tier
    ensures ChecksExplain(d)
    ensures d.verdict.Deny? ==> d.checks != [] && Reports(Outcome(p, Some(req), ctx).1, d.checks[|d.checks| - 1].name)
  {
    hide IsLegacy, LegacyVerdict, HasLive, HasRevoked, HasScope, Lookup, KeyOf, NeedsConfirmation, AllPassed, ChecksExplain, AppendEvent;
    var taskId := req.taskId.value;
    if ctx.sleep.SLEEP? && def.sleepGated {
      return Refuse(req, def.tier, passed, SleepOpen), AppendEvent(ctx.log, SleepDenied, ctx.sleep);
    }
    var checks := Pass(passed, SleepOpen);
    if req.operation !in def.operations {
      return Refuse(req, def.tier, checks, OperationDeclared), AppendEvent(ctx.log, OperationDenied, ctx.sleep);
    }
    checks := Pass(checks, OperationDeclared);
    if def.scoped {
      if req.resource.None? {
        return Refuse(req, def.tier, checks, ScopePresent), AppendEvent(ctx.log, ScopeDenied, ctx.sleep);
      }
      if !HasScope(p, def, ctx.grants, taskId, req.resource.value) {
        return Refuse(req, def.tier, checks, ScopeInside), AppendEvent(ctx.log, ScopeDenied, ctx.sleep);
      }
      checks := Pass(checks, ScopeInside);
    } else if req.resource.Some? {
      return Refuse(req, def.tier, checks, ScopeAbsent), AppendEvent(ctx.log, ScopeDenied, ctx.sleep);
    }
    checks := Pass(checks, RiskTierKnown);
    if NeedsConfirmation(def) {
      if KeyOf(req) !in ctx.confirmations {
        return Conclude(req, def.tier, RequireConfirmation, checks, Check(ConfirmationNeeded, true)),
          AppendEvent(ctx.log, ConfirmationRequired, ctx.sleep);
      }
      checks := Pass(checks, ConfirmationNeeded);
      return Conclude(req, def.tier, Allow, checks, Check(ConfirmationPresent, true)),
        AppendEvent(ctx.log, ConfirmationSatisfied, ctx.sleep);
    }
    return Conclude(req, def.tier, Allow, checks, Check(ConfirmationNeeded, false)),
      AppendEvent(ctx.log, AuthorizationAllowed, ctx.sleep);
  }

  // ---- one declarative predicate ----

  /** Everything but the human's approval. */
  predicate Permitted(p: Policy, req: Request, ctx: Context) {
    var def := Lookup(p.registry, req.capability);
    && def.Some?
    && req.taskId.Some?
    && HasLive(ctx.grants, req.taskId.value, req.capability)
    && (def.value.sleepGated ==> ctx.sleep.AWAKE?)
    && req.operation in def.value.operations
    && (def.value.scoped <==> req.resource.Some?)
    && (def.value.scoped ==> HasScope(p, def.value, ctx.grants, req.taskId.value, req.resource.value))
  }

  predicate Approved(p: Policy, req: Request, ctx: Context)
    requires Lookup(p.registry, req.capability).Some? && req.taskId.Some?
  {
    NeedsConfirmation(Lookup(p.registry, req.capability).value) ==> KeyOf(req) in ctx.confirmations
  }

  /** The cascade decides exactly by these two predicates. */
  lemma OutcomeIsDeclarative(p: Policy, req: Request, ctx: Context)
    requires !IsLegacy(req.capability)
    ensures var v := Outcome(p, Some(req), ctx).0;
            && (v.Deny? <==> !Permitted(p, req, ctx))
            && (v.Allow? <==> Permitted(p, req, ctx) && Approved(p, req, ctx))
  {
  }

  function Rank(v: Verdict): nat { match v case Deny => 0 case RequireConfirmation => 1 case Allow => 2 }

  /** Every live grant of the one list is matched in the other. */
  ghost predicate CoversGrants(less: seq<Grant>, more: seq<Grant>) {
    forall g | g in less && !g.revoked :: g in more
  }

  /**
   * The verdict is monotone: more live grants, more confirmations and being awake never lower it.
   * Read the other way, revoking and falling asleep never raise it.
   */
  lemma VerdictMonotone(p: Policy, request: Option<Request>, less: Context, more: Context)
    requires CoversGrants(less.grants, more.grants)
    requires forall r | r in less.confirmations :: r in more.confirmations
    requires less.sleep.AWAKE? ==> more.sleep.AWAKE?
    ensures Rank(Outcome(p, request, less).0) <= Rank(Outcome(p, request, more).0)
  {
    hide WithinScope, LegacyVerdict;
    if request.Some? && IsLegacy(request.value.capability) {
      LegacyExactly(request.value, less.sleep);
      LegacyExactly(request.value, more.sleep);
    } else if request.Some? {
      var req := request.value;
      OutcomeIsDeclarative(p, req, less);
      OutcomeIsDeclarative(p, req, more);
      if Permitted(p, req, less) {
        var task, def := req.taskId.value, Lookup(p.registry, req.capability).value;
        var g :| g in less.grants && IsLive(g, task, req.capability);
        assert g in more.grants;
        if def.scoped {
          var h :| h in less.grants && IsLive(h, task, def.id) && WithinScope(p, def, h.scope, req.resource.value);
          assert h in more.grants;
        }
        assert Permitted(p, req, more);
      }
    }
  }

  // ---- issuing and revoking grants ----

  /** The shape ^[a-z0-9][a-z0-9._-]{0,127}$, without regard to case. */
  predicate IdShape(id: Str) {
    && 1 <= |id| <= 128
    && IdUnit(id[0]) && id[0] != DOT && id[0] != 0x5F && id[0] != 0x2D
    && forall i | 0 <= i < |id| :: IdUnit(id[i])
  }

  predicate IdUnit(u: CodeUnit) {
    IsDigit(u) || 0x61 <= u <= 0x7A || 0x41 <= u <= 0x5A || u == DOT || u == 0x5F || u == 0x2D
  }

  datatype Issuance = Issuance(grantId: Str, taskId: Str, capability: Str, scope: Str)

  /** issueGrant: None stands for its exceptions. */
  function IssueGrant(p: Policy, i: Issuance): Option<Grant> {
    var def := Lookup(p.registry, i.capability);
    if !IdShape(i.grantId) || !IdShape(i.taskId) || def.None? || !WellFormedScope(p, def.value, i.scope) then None
    else Some(Grant(i.grantId, i.taskId, i.capability, i.scope, false))
  }

  function Revoke(grants: seq<Grant>, grantId: Str): (r: seq<Grant>)
    ensures |r| == |grants|
    ensures forall k | 0 <= k < |grants| ::
      r[k] == if grants[k].grantId == grantId then grants[k].(revoked := true) else grants[k]
  {
    seq(|grants|, k requires 0 <= k < |grants| =>
      if grants[k].grantId == grantId then grants[k].(revoked := true) else grants[k])
  }

  lemma RevokedIsCovered(grants: seq<Grant>, grantId: Str)
    ensures CoversGrants(Revoke(grants, grantId), grants)
  {
    var r := Revoke(grants, grantId);
    forall g | g in r && !g.revoked ensures g in grants {
      var k :| 0 <= k < |r| && r[k] == g;
      assert grants[k] in grants;
    }
  }

  /** Adding a grant or a confirmation never lowers a verdict; revoking or sleeping never raises one. */
  lemma StepsMoveVerdictOneWay(p: Policy, request: Option<Request>, ctx: Context, g: Grant, c: Confirmation, grantId: Str)
    ensures var now := Rank(Outcome(p, request, ctx).0);
            && now <= Rank(Outcome(p, request, ctx.(grants := ctx.grants + [g])).0)
            && now <= Rank(Outcome(p, request, ctx.(confirmations := ctx.confirmations + [c])).0)
            && now >= Rank(Outcome(p, request, ctx.(grants := Revoke(ctx.grants, grantId))).0)
            && now >= Rank(Outcome(p, request, ctx.(sleep := SLEEP)).0)
  {
    hide Outcome;
    VerdictMonotone(p, request, ctx, ctx.(grants := ctx.grants + [g]));
    VerdictMonotone(p, request, ctx, ctx.(confirmations := ctx.confirmations + [c]));
    RevokedIsCovered(ctx.grants, grantId);
    VerdictMonotone(p, request, ctx.(grants := Revoke(ctx.grants, grantId)), ctx);
    VerdictMonotone(p, request, ctx.(sleep := SLEEP), ctx);
  }
}
