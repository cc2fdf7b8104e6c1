/**
 * What an allowed request is entitled to, in terms of path segments, domain labels, grants and
 * confirmations: an independent account of the authorization pipeline and of issued grants.
 */
module Entitlement {
  import opened Text
  import opened Scope
  import opened Kernel
  import opened Authorize

  // ---- declarations ----

  predicate FirstDeclared(registry: seq<Definition>, id: Str, k: nat) {
    k < |registry| && registry[k].id == id && forall j | 0 <= j < k :: registry[j].id != id
  }

  /** The definition that counts for this id. */
  predicate Declares(registry: seq<Definition>, id: Str, def: Definition) {
    exists k | 0 <= k < |registry| :: FirstDeclared(registry, id, k) && registry[k] == def
  }

  lemma {:induction false} LookupPlace(registry: seq<Definition>, id: Str) returns (k: nat)
    ensures match Lookup(registry, id)
            case None => forall d | d in registry :: d.id != id
            case Some(def) => FirstDeclared(registry, id, k) && registry[k] == def
    decreases |registry|
  {
    k := 0;
    if registry == [] {
    } else if registry[0].id != id {
      var j := LookupPlace(registry[1..], id);
      k := j + 1;
      assert registry == [registry[0]] + registry[1..];
    }
  }

  lemma LookupExactly(registry: seq<Definition>, id: Str)
    ensures forall def :: Lookup(registry, id) == Some(def) <==> Declares(registry, id, def)
    ensures Lookup(registry, id).None? <==> forall d | d in registry :: d.id != id
  {
    hide Lookup;
    var k := LookupPlace(registry, id);
    forall def ensures Lookup(registry, id) == Some(def) <==> Declares(registry, id, def) {
      if Declares(registry, id, def) {
        var j :| 0 <= j < |registry| && FirstDeclared(registry, id, j) && registry[j] == def;
        assert registry[j] in registry;
      }
    }
  }

  // ---- containment ----

  /** The scope contains the resource, by segments for paths and by labels for hosts. */
  predicate Covers(lower: Str -> Str, family: Family, scope: Str, resource: Str) {
    match family
    case Filesystem | Git | Memory | Browser | Terminal =>
      Segments(scope).Some? && Segments(resource).Some? && Segments(scope).value <= Segments(resource).value
    case Network =>
      && DomainShape(lower(scope)) && DomainShape(lower(resource))
      && IsSuffix(Labels(lower(scope)), Labels(lower(resource)))
    case Screen | AppControl | Keyboard | Mouse | Audit | SystemSleep => false
  }

  lemma WithinExactly(p: Policy, def: Definition, scope: Str, resource: Str)
    ensures WithinScope(p, def, scope, resource) <==> Covers(p.lower, def.family, scope, resource)
  {
    hide DomainShape, Labels, Segments, Normalized;
    if def.family.Network? {
      DomainWithinIsSuffix(p.lower, scope, resource);
    } else {
      hide PathWithin, DomainWithin;
      PathWithinIsPrefix(scope, resource);
    }
  }

  // ---- allowed requests ----

  /** A grant that is live for this task and capability, and contains the resource where there has to be one. */
  predicate Backs(lower: Str -> Str, def: Definition, req: Request, g: Grant) {
    && req.taskId == Some(g.taskId) && g.capability == req.capability && !g.revoked
    && (def.scoped ==> req.resource.Some? && Covers(lower, def.family, g.scope, req.resource.value))
  }

  /** Everything but the approval of a human. */
  ghost predicate Entitled(p: Policy, req: Request, ctx: Context, def: Definition) {
    && Declares(p.registry, req.capability, def)
    && (exists g | g in ctx.grants :: Backs(p.lower, def, req, g))
    && (def.sleepGated ==> ctx.sleep == AWAKE)
    && req.operation in def.operations
    && (def.scoped <==> req.resource.Some?)
  }

  /** Tier two and above, and whatever is declared so, needs a confirmation of this very request. */
  predicate Endorsed(req: Request, ctx: Context, def: Definition)
    requires req.taskId.Some?
  {
    def.tier >= 2 || def.requiresConfirmation ==>
      exists c | c in ctx.confirmations ::
        && c.taskId == req.taskId.value && c.capability == req.capability && c.operation == req.operation
        && c.resource == match req.resource case None => [] case Some(r) => r
  }

  lemma EndorsedExactly(p: Policy, req: Request, ctx: Context, def: Definition)
    requires req.taskId.Some? && Lookup(p.registry, req.capability) == Some(def)
    ensures Approved(p, req, ctx) <==> Endorsed(req, ctx, def)
  {
  }

  lemma EntitledExactly(p: Policy, req: Request, ctx: Context, def: Definition)
    ensures Entitled(p, req, ctx, def) <==> Permitted(p, req, ctx) && Lookup(p.registry, req.capability) == Some(def)
  {
    hide WithinScope, Covers, Lookup;
    LookupExactly(p.registry, req.capability);
    forall g: Grant | req.resource.Some?
      ensures WithinScope(p, def, g.scope, req.resource.value) <==> Covers(p.lower, def.family, g.scope, req.resource.value)
    {
      WithinExactly(p, def, g.scope, req.resource.value);
    }
    if Entitled(p, req, ctx, def) {
      var g :| g in ctx.grants && Backs(p.lower, def, req, g);
      assert IsLive(g, req.taskId.value, req.capability);
    }
    if Permitted(p, req, ctx) && Lookup(p.registry, req.capability) == Some(def) {
      if def.scoped {
        var g :| g in ctx.grants && IsLive(g, req.taskId.value, def.id) && WithinScope(p, def, g.scope, req.resource.value);
        assert Backs(p.lower, def, req, g);
      } else {
        var g :| g in ctx.grants && IsLive(g, req.taskId.value, req.capability);
        assert Backs(p.lower, def, req, g);
      }
    }
  }

  /**
   * A request is not denied exactly when its capability is declared and some live grant of its
   * task and capability contains its resource, with the operation declared, the gate open and a
   * resource exactly where the capability has scopes; and it is allowed exactly when, besides,
   * a confirmation of it is recorded where its tier or its declaration asks for one.
   */
  lemma AllowedExactly(p: Policy, req: Request, ctx: Context)
    requires !IsLegacy(req.capability)
    ensures !Outcome(p, Some(req), ctx).0.Deny? <==> exists def :: Entitled(p, req, ctx, def)
    ensures Outcome(p, Some(req), ctx).0.Allow? <==>
              exists def :: Entitled(p, req, ctx, def) && req.taskId.Some? && Endorsed(req, ctx, def)
  {
    hide Outcome, Permitted, Approved, Entitled, Endorsed;
    OutcomeIsDeclarative(p, req, ctx);
    forall def ensures Entitled(p, req, ctx, def) <==> Permitted(p, req, ctx) && Lookup(p.registry, req.capability) == Some(def) {
      EntitledExactly(p, req, ctx, def);
    }
    if Permitted(p, req, ctx) {
      PermittedHasTask(p, req, ctx);
      EndorsedExactly(p, req, ctx, Lookup(p.registry, req.capability).value);
    }
  }

  lemma PermittedHasTask(p: Policy, req: Request, ctx: Context)
    requires Permitted(p, req, ctx)
    ensures req.taskId.Some? && Lookup(p.registry, req.capability).Some?
  {
  }

  // ---- refused requests ----

  predicate ForPair(g: Grant, req: Request) { req.taskId == Some(g.taskId) && g.capability == req.capability }

  /** Some grant of the pair is live. */
  predicate Held(req: Request, ctx: Context) { exists g | g in ctx.grants :: ForPair(g, req) && !g.revoked }

  predicate GateOpen(ctx: Context, def: Definition) { !(ctx.sleep == SLEEP && def.sleepGated) }

  /**
   * The event of a declared request names the first thing that is wrong with it, and says how it
   * was allowed otherwise.
   */
  lemma EventsExactly(p: Policy, req: Request, ctx: Context, def: Definition)
    requires !IsLegacy(req.capability) && Declares(p.registry, req.capability, def)
    ensures var kind := Outcome(p, Some(req), ctx).1;
            var ready := Held(req, ctx) && GateOpen(ctx, def);
            && (kind.AuthorizationUnknownTask? <==> req.taskId.None?)
            && (kind.AuthorizationNoGrant? <==> req.taskId.Some? && forall g | g in ctx.grants :: !ForPair(g, req))
            && (kind.AuthorizationDenied? <==> !Held(req, ctx) && exists g | g in ctx.grants :: ForPair(g, req))
            && (kind.SleepDenied? <==> Held(req, ctx) && !GateOpen(ctx, def))
            && (kind.OperationDenied? <==> ready && req.operation !in def.operations)
            && (kind.ScopeDenied? <==> ready && req.operation in def.operations && !Entitled(p, req, ctx, def))
            && (kind.ConfirmationRequired? <==> Entitled(p, req, ctx, def) && req.taskId.Some? && !Endorsed(req, ctx, def))
            && (kind.ConfirmationSatisfied? || kind.AuthorizationAllowed? <==>
                  Entitled(p, req, ctx, def) && req.taskId.Some? && Endorsed(req, ctx, def))
            && (kind.AuthorizationAllowed? ==> def.tier < 2 && !def.requiresConfirmation)
            && (kind.ConfirmationSatisfied? ==> def.tier >= 2 || def.requiresConfirmation)
  {
    hide Declares, Entitled, Endorsed, WithinScope, Lookup, IsLegacy, LegacyVerdict;
    LookupExactly(p.registry, req.capability);
    EntitledExactly(p, req, ctx, def);
    if req.taskId.Some? {
      EndorsedExactly(p, req, ctx, def);
      PairsExactly(req, ctx);
    }
  }

  lemma PairsExactly(req: Request, ctx: Context)
    requires req.taskId.Some?
    ensures HasLive(ctx.grants, req.taskId.value, req.capability) <==> Held(req, ctx)
    ensures HasRevoked(ctx.grants, req.taskId.value, req.capability) <==> exists g | g in ctx.grants :: ForPair(g, req) && g.revoked
  {
    if Held(req, ctx) {
      var g :| g in ctx.grants && ForPair(g, req) && !g.revoked;
      assert IsLive(g, req.taskId.value, req.capability);
    }
    if HasLive(ctx.grants, req.taskId.value, req.capability) {
      var g :| g in ctx.grants && IsLive(g, req.taskId.value, req.capability);
      assert ForPair(g, req);
    }
    if exists g | g in ctx.grants :: ForPair(g, req) && g.revoked {
      var g :| g in ctx.grants && ForPair(g, req) && g.revoked;
      assert g.taskId == req.taskId.value;
    }
    if HasRevoked(ctx.grants, req.taskId.value, req.capability) {
      var g :| g in ctx.grants && g.taskId == req.taskId.value && g.capability == req.capability && g.revoked;
      assert ForPair(g, req);
    }
  }

  /** The events of requests that name no declared capability. */
  lemma UndeclaredExactly(p: Policy, request: Option<Request>, ctx: Context)
    ensures request.None? ==> Outcome(p, request, ctx) == (Deny, RequestValidationFailed)
    ensures request.Some? && !IsLegacy(request.value.capability) ==>
              (Outcome(p, request, ctx).1.CapabilityLookupFailed? <==> forall d | d in p.registry :: d.id != request.value.capability)
    ensures request.Some? && IsLegacy(request.value.capability) ==>
              Outcome(p, request, ctx) ==
                if request.value.capability == AUDIT_READ || |request.value.capability| + 1 + |request.value.operation| > 256
                then (Deny, AuthorizationDenied) else (Allow, AuthorizationAllowed)
  {
    hide IsLegacy, LegacyVerdict, HasLive, HasScope, HasRevoked, Lookup;
    if request.Some? {
      LookupExactly(p.registry, request.value.capability);
      if IsLegacy(request.value.capability) {
        LegacyExactly(request.value, ctx.sleep);
      }
    }
  }

  // ---- issued grants ----

  /** Letters of ids; the expression ignores case. */
  predicate IdLetter(u: CodeUnit) { u in LOWER_CASE || u in UPPER_CASE || u in DIGITS }

  /** A letter or digit, then up to 127 letters, digits, dots, underscores and hyphens. */
  predicate IdText(id: Str) {
    && id != [] && IdLetter(id[0])
    && |id[1..]| <= 127 && forall i | 0 <= i < |id[1..]| :: IdLetter(id[1..][i]) || id[1..][i] in Ascii("._-")
  }

  lemma IdTextExactly(id: Str)
    ensures IdShape(id) <==> IdText(id)
  {
    hide IsDigit, IdLetter, IdUnit;
    var more: Str := if id == [] then [] else id[1..];
    assert Ascii("._-") == [DOT, 0x5F, 0x2D];
    forall u: CodeUnit
      ensures IdUnit(u) <==> IdLetter(u) || u in Ascii("._-")
      ensures IdLetter(u) ==> u != DOT && u != 0x5F && u != 0x2D
    {
      IdClass(u);
    }
    assert forall i | 0 <= i < |more| :: more[i] == id[i + 1];
    if IdText(id) {
      forall i | 0 <= i < |id| ensures IdUnit(id[i]) {
        if i > 0 {
          assert id[i] == more[i - 1];
        }
      }
    }
  }

  lemma IdClass(u: CodeUnit)
    ensures IdUnit(u) <==> IdLetter(u) || u in Ascii("._-")
    ensures IdLetter(u) ==> u != DOT && u != 0x5F && u != 0x2D
  {
    LowerLetters(u);
    UpperLetters(u);
    DigitLetters(u);
    assert Ascii("._-") == [DOT, 0x5F, 0x2D];
  }

  /** A scope that a grant for this definition can have. */
  predicate ScopeFits(lower: Str -> Str, def: Definition, scope: Str) {
    if !def.scoped then scope == []
    else
      match def.family
      case Filesystem | Git | Memory | Browser | Terminal => Segments(scope).Some?
      case Network => DomainShape(lower(scope))
      case Screen | AppControl | Keyboard | Mouse | Audit | SystemSleep => false
  }

  /** A grant is issued exactly for well-formed ids, a declared capability and a fitting scope, with just these contents. */
  lemma IssuedExactly(p: Policy, i: Issuance, g: Grant)
    ensures IssueGrant(p, i) == Some(g) <==>
              && IdText(i.grantId) && IdText(i.taskId)
              && (exists def :: Declares(p.registry, i.capability, def) && ScopeFits(p.lower, def, i.scope))
              && g.grantId == i.grantId && g.taskId == i.taskId && g.capability == i.capability && g.scope == i.scope && !g.revoked
  {
    hide IdShape, IdText, Lookup, Declares, DomainShape, Segments;
    IdTextExactly(i.grantId);
    IdTextExactly(i.taskId);
    LookupExactly(p.registry, i.capability);
  }
}
