/** The single path from authorization to the operating system: src/executor/executor.ts. */
module Executor {
  import opened Text
  import opened Kernel
  import opened Authorize
  import opened Entitlement

  datatype Adapter = SystemInfo | ReadFile | ListDirectory | GitRead | FindFiles | SearchContents | ReadTree

  /** What the one adapter call comes to. */
  datatype AdapterResult = Finished(redacted: bool) | Declined(limit: bool) | Threw

  datatype Stage = KillSwitch | Authorization | DecisionShape | Asleep | NoAdapter | Binding
  datatype Execution = Completed | Refused(stage: Stage) | Failed

  const SYSTEM_INFO: Str := Ascii("system.info")
  const FILESYSTEM_READ: Str := Ascii("filesystem.read")
  const GIT_READ: Str := Ascii("git.read")
  const FILESYSTEM_FIND: Str := Ascii("filesystem.find")
  const FILESYSTEM_SEARCH: Str := Ascii("filesystem.search")
  const FILESYSTEM_TREE: Str := Ascii("filesystem.tree")
  const INFO: Str := Ascii("info")
  const READ: Str := Ascii("read")
  const LIST: Str := Ascii("list")
  const STATUS: Str := Ascii("status")
  const LOG: Str := Ascii("log")
  const DIFF: Str := Ascii("diff")
  const FIND: Str := Ascii("find")
  const SEARCH: Str := Ascii("search")
  const TREE: Str := Ascii("tree")
  const PATTERN: Str := Ascii("pattern")
  const QUERY: Str := Ascii("query")
  const UNKNOWN: Str := Ascii("unknown")

  /** The exact (capability, operation) pairs with an adapter. */
  function AdapterFor(capability: Str, operation: Str): Option<Adapter> {
    if capability == SYSTEM_INFO && operation == INFO then Some(SystemInfo)
    else if capability == FILESYSTEM_READ && operation == READ then Some(ReadFile)
    else if capability == FILESYSTEM_READ && operation == LIST then Some(ListDirectory)
    else if capability == GIT_READ
         && (operation == STATUS || operation == LOG || operation == DIFF) then Some(GitRead)
    else if capability == FILESYSTEM_FIND && operation == FIND then Some(FindFiles)
    else if capability == FILESYSTEM_SEARCH && operation == SEARCH then Some(SearchContents)
    else if capability == FILESYSTEM_TREE && operation == TREE then Some(ReadTree)
    else None
  }

  lemma LegacyHasNoAdapter(capability: Str, operation: Str)
    requires IsLegacy(capability)
    ensures AdapterFor(capability, operation).None?
  {
    hide IsLegacy;
    LegacyIds(capability);
    assert capability[0] == 'a' as int || capability[7] == 's' as int;
    assert SYSTEM_INFO[0] == 's' as int && SYSTEM_INFO[7] == 'i' as int;
    assert FILESYSTEM_READ[0] == 'f' as int && GIT_READ[0] == 'g' as int;
    assert FILESYSTEM_FIND[0] == 'f' as int && FILESYSTEM_SEARCH[0] == 'f' as int;
    assert FILESYSTEM_TREE[0] == 'f' as int;
    assert capability[0] == 'a' as int || capability[0] == 's' as int;
  }

  /** The scope of the first live grant that contains the resource. */
  function BoundRoot(p: Policy, grants: seq<Grant>, taskId: Str, capability: Str, resource: Str): Option<Str> {
    var def := Lookup(p.registry, capability);
    if def.None? || grants == [] then None
    else if IsLive(grants[0], taskId, capability) && WithinScope(p, def.value, grants[0].scope, resource) then Some(grants[0].scope)
    else BoundRoot(p, grants[1..], taskId, capability, resource)
  }

  method FindBoundRoot(p: Policy, grants: seq<Grant>, taskId: Str, capability: Str, resource: Str) returns (root: Option<Str>)
    ensures root == BoundRoot(p, grants, taskId, capability, resource)
  {
    var def := Lookup(p.registry, capability);
    if def.None? {
      return None;
    }
    for k := 0 to |grants|
      invariant BoundRoot(p, grants, taskId, capability, resource) == BoundRoot(p, grants[k..], taskId, capability, resource)
    {
      assert grants[k..][1..] == grants[k + 1..];
      if IsLive(grants[k], taskId, capability) && WithinScope(p, def.value, grants[k].scope, resource) {
        return Some(grants[k].scope);
      }
    }
    return None;
  }

  /** A root is found exactly when some live grant of that task contains the resource. */
  lemma {:induction false} BoundRootFinds(p: Policy, def: Definition, grants: seq<Grant>, taskId: Str, resource: Str)
    requires Lookup(p.registry, def.id) == Some(def)
    ensures BoundRoot(p, grants, taskId, def.id, resource).Some? <==> HasScope(p, def, grants, taskId, resource)
  {
    hide WithinScope;
    if grants == [] {
    } else {
      BoundRootFinds(p, def, grants[1..], taskId, resource);
      assert grants == [grants[0]] + grants[1..];
      if HasScope(p, def, grants, taskId, resource) {
        var g :| g in grants && IsLive(g, taskId, def.id) && WithinScope(p, def, g.scope, resource);
        assert g == grants[0] || g in grants[1..];
      }
    }
  }

  /** The root is the scope of the first grant that is live for the pair and contains the resource. */
  lemma {:induction false} BoundRootExactly(p: Policy, def: Definition, grants: seq<Grant>, taskId: Str, resource: Str, root: Str)
    requires Declares(p.registry, def.id, def)
    ensures BoundRoot(p, grants, taskId, def.id, resource) == Some(root) <==>
              exists k | 0 <= k < |grants| :: FirstRoot(p.lower, def, grants, taskId, resource, k) && grants[k].scope == root
    decreases |grants|
  {
    hide WithinScope, Covers, Declares, Lookup;
    LookupExactly(p.registry, def.id);
    if grants == [] {
    } else {
      BoundRootExactly(p, def, grants[1..], taskId, resource, root);
      WithinExactly(p, def, grants[0].scope, resource);
      var here := Contains(p.lower, def, grants[0], taskId, resource);
      assert here <==> FirstRoot(p.lower, def, grants, taskId, resource, 0);
      forall k | 0 <= k < |grants| - 1
        ensures FirstRoot(p.lower, def, grants, taskId, resource, k + 1) <==> !here && FirstRoot(p.lower, def, grants[1..], taskId, resource, k)
      {
        RootShift(p.lower, def, grants, taskId, resource, k);
      }
      if k :| 0 <= k < |grants| && FirstRoot(p.lower, def, grants, taskId, resource, k) && grants[k].scope == root {
        if k > 0 {
          assert FirstRoot(p.lower, def, grants, taskId, resource, (k - 1) + 1);
          assert grants[1..][k - 1].scope == root;
        }
      }
    }
  }

  predicate Contains(lower: Str -> Str, def: Definition, g: Grant, taskId: Str, resource: Str) {
    g.taskId == taskId && g.capability == def.id && !g.revoked && Covers(lower, def.family, g.scope, resource)
  }

  predicate FirstRoot(lower: Str -> Str, def: Definition, grants: seq<Grant>, taskId: Str, resource: Str, k: int) {
    0 <= k < |grants| && Contains(lower, def, grants[k], taskId, resource) && forall j | 0 <= j < k :: !Contains(lower, def, grants[j], taskId, resource)
  }

  lemma RootShift(lower: Str -> Str, def: Definition, grants: seq<Grant>, taskId: Str, resource: Str, k: int)
    requires 0 <= k < |grants| - 1
    ensures FirstRoot(lower, def, grants, taskId, resource, k + 1) <==>
              !Contains(lower, def, grants[0], taskId, resource) && FirstRoot(lower, def, grants[1..], taskId, resource, k)
  {
    hide Contains;
    var rest := grants[1..];
    assert forall j | 0 <= j < |rest| :: rest[j] == grants[j + 1];
    if FirstRoot(lower, def, rest, taskId, resource, k) && !Contains(lower, def, grants[0], taskId, resource) {
      forall j | 0 <= j < k + 1 ensures !Contains(lower, def, grants[j], taskId, resource) {
        if j > 0 {
          assert rest[j - 1] == grants[j];
        }
      }
    }
    if FirstRoot(lower, def, grants, taskId, resource, k + 1) {
      forall j | 0 <= j < k ensures !Contains(lower, def, rest[j], taskId, resource) {
        assert rest[j] == grants[j + 1];
      }
    }
  }

  // ---- run ----

  predicate OnlyParam(params: Option<map<Str, Str>>, name: Str) {
    params.Some? && params.value.Keys == {name}
  }

  /** What follows execution.started. */
  function AfterStart(p: Policy, req: Request, ctx: Context, adapter: Adapter, result: AdapterResult): (Execution, seq<Kind>) {
    if adapter.SystemInfo? then
      if result.Threw? then (Failed, [ExecutionFailed]) else (Completed, [ExecutionCompleted])
    else if req.taskId.None? || req.resource.None?
         || BoundRoot(p, ctx.grants, req.taskId.value, req.capability, req.resource.value).None? then
      (Refused(Binding), [ExecutionRejected])
    else if (adapter.FindFiles? && !OnlyParam(req.params, PATTERN))
         || (adapter.SearchContents? && !OnlyParam(req.params, QUERY))
         || (adapter.ReadTree? && req.params.Some?) then
      (Refused(NoAdapter), [ExecutionRejected])
    else match result
      case Threw => (Failed, [ExecutionFailed])
      case Declined(limit) => (Refused(NoAdapter), [if limit then LimitExceeded else ExecutionRejected])
      case Finished(redacted) => (Completed, (if redacted then [ResultRedacted] else []) + [ExecutionCompleted])
  }

  predicate ShapedDecision(req: Request) {
    req.capability != UNKNOWN && req.operation != UNKNOWN
  }

  /** Everything that has to hold for execution.started to be logged. */
  predicate Starts(p: Policy, request: Option<Request>, ctx: Context, killed: bool) {
    && !killed
    && Outcome(p, request, ctx).0.Allow?
    && request.Some? && ShapedDecision(request.value)
    && ctx.sleep.AWAKE?
    && AdapterFor(request.value.capability, request.value.operation).Some?
  }

  /** The outcome of one request and the events it logs, in order. */
  function Execute(p: Policy, request: Option<Request>, ctx: Context, killed: bool, result: AdapterResult): (Execution, seq<Kind>) {
    if killed then (Refused(KillSwitch), [ExecutionRejected])
    else
      var (verdict, kind) := Outcome(p, request, ctx);
      if !verdict.Allow? then (Refused(Authorization), [kind, ExecutionRejected])
      else if request.None? || !ShapedDecision(request.value) then (Refused(DecisionShape), [kind, ExecutionRejected])
      else if ctx.sleep.SLEEP? then (Refused(Asleep), [kind, ExecutionRejected])
      else
        var adapter := AdapterFor(request.value.capability, request.value.operation);
        if adapter.None? then (Refused(NoAdapter), [kind, ExecutionRejected])
        else
          var (execution, kinds) := AfterStart(p, request.value, ctx, adapter.value, result);
          (execution, [kind, ExecutionStarted] + kinds)
  }

  method Run(p: Policy, request: Option<Request>, ctx: Context, killed: bool, result: AdapterResult)
    returns (execution: Execution, log: seq<LogEvent>)
    ensures execution == Execute(p, request, ctx, killed, result).0
    ensures log == AppendEvents(ctx.log, Execute(p, request, ctx, killed, result).1, ctx.sleep)
  {
    hide Outcome, AdapterFor, ShapedDecision, ChecksExplain, Reports, Lookup, IsLegacy, AfterStart;
    ghost var kinds: seq<Kind> := [];
    AppendOneMore(ctx.log, [], ExecutionRejected, ctx.sleep);
    assert [] + [ExecutionRejected] == [ExecutionRejected];
    if killed {
      return Refused(KillSwitch), AppendEvent(ctx.log, ExecutionRejected, ctx.sleep);
    }
    var decision: Decision;
    decision, log := Authorize.Authorize(p, request, ctx);
    ghost var kind := Outcome(p, request, ctx).1;
    AppendOneMore(ctx.log, [], kind, ctx.sleep);
    assert [] + [kind] == [kind];
    AppendOneMore(ctx.log, [kind], ExecutionRejected, ctx.sleep);
    assert [kind] + [ExecutionRejected] == [kind, ExecutionRejected];
    if !decision.verdict.Allow? {
      return Refused(Authorization), AppendEvent(log, ExecutionRejected, ctx.sleep);
    }
    if request.None? || !ShapedDecision(request.value) {
      return Refused(DecisionShape), AppendEvent(log, ExecutionRejected, ctx.sleep);
    }
    if ctx.sleep != AWAKE {
      return Refused(Asleep), AppendEvent(log, ExecutionRejected, ctx.sleep);
    }
    var adapter := AdapterFor(request.value.capability, request.value.operation);
    if adapter.None? {
      return Refused(NoAdapter), AppendEvent(log, ExecutionRejected, ctx.sleep);
    }
    AppendOneMore(ctx.log, [kind], ExecutionStarted, ctx.sleep);
    log := AppendEvent(log, ExecutionStarted, ctx.sleep);
    execution, log := Perform(p, request.value, ctx, adapter.value, result, log, ctx.log, [kind, ExecutionStarted]);
  }

  /** The adapter dispatch, whose last events go behind those already logged. */
  method Perform(p: Policy, req: Request, ctx: Context, adapter: Adapter, result: AdapterResult,
      log: seq<LogEvent>, ghost before: seq<LogEvent>, ghost logged: seq<Kind>)
    returns (execution: Execution, out: seq<LogEvent>)
    requires log == AppendEvents(before, logged, ctx.sleep)
    ensures execution == AfterStart(p, req, ctx, adapter, result).0
    ensures out == AppendEvents(before, logged + AfterStart(p, req, ctx, adapter, result).1, ctx.sleep)
  {
    forall kind: Kind
      ensures AppendEvents(before, logged + [kind], ctx.sleep) == AppendEvent(log, kind, ctx.sleep)
    {
      AppendOneMore(before, logged, kind, ctx.sleep);
    }
    hide AppendEvents;
    if adapter.SystemInfo? {
      if result.Threw? {
        return Failed, AppendEvent(log, ExecutionFailed, ctx.sleep);
      }
      return Completed, AppendEvent(log, ExecutionCompleted, ctx.sleep);
    }
    if req.taskId.None? || req.resource.None? {
      return Refused(Binding), AppendEvent(log, ExecutionRejected, ctx.sleep);
    }
    var root := FindBoundRoot(p, ctx.grants, req.taskId.value, req.capability, req.resource.value);
    if root.None? {
      return Refused(Binding), AppendEvent(log, ExecutionRejected, ctx.sleep);
    }
    if (adapter.FindFiles? && !OnlyParam(req.params, PATTERN))
       || (adapter.SearchContents? && !OnlyParam(req.params, QUERY))
       || (adapter.ReadTree? && req.params.Some?) {
      return Refused(NoAdapter), AppendEvent(log, ExecutionRejected, ctx.sleep);
    }
    match result {
      case Threw =>
        return Failed, AppendEvent(log, ExecutionFailed, ctx.sleep);
      case Declined(limit) =>
        return Refused(NoAdapter), AppendEvent(log, if limit then LimitExceeded else ExecutionRejected, ctx.sleep);
      case Finished(redacted) =>
        out := log;
        if redacted {
          out := AppendEvent(out, ResultRedacted, ctx.sleep);
          AppendTwo(before, logged, ResultRedacted, ExecutionCompleted, ctx.sleep);
        } else {
          assert [] + [ExecutionCompleted] == [ExecutionCompleted];
        }
        return Completed, AppendEvent(out, ExecutionCompleted, ctx.sleep);
    }
  }

  lemma AppendTwo(before: seq<LogEvent>, logged: seq<Kind>, k: Kind, l: Kind, sleep: Sleep)
    ensures AppendEvents(before, logged + ([k] + [l]), sleep)
         == AppendEvent(AppendEvent(AppendEvents(before, logged, sleep), k, sleep), l, sleep)
  {
    AppendOneMore(before, logged, k, sleep);
    AppendOneMore(before, logged + [k], l, sleep);
    assert logged + ([k] + [l]) == (logged + [k]) + [l];
  }

  // ---- properties ----

  /** Execution starts exactly when it is logged, and only on a fully authorized request. */
  lemma StartedExactly(p: Policy, request: Option<Request>, ctx: Context, killed: bool, result: AdapterResult)
    ensures ExecutionStarted in Execute(p, request, ctx, killed, result).1 <==> Starts(p, request, ctx, killed)
    ensures Starts(p, request, ctx, killed) ==>
      && !IsLegacy(request.value.capability)
      && Permitted(p, request.value, ctx) && Approved(p, request.value, ctx)
  {
    OutcomeKind(p, request, ctx);
    hide Outcome, AdapterFor, ShapedDecision, AfterStart, Permitted, Approved, IsLegacy;
    if !killed && Outcome(p, request, ctx).0.Allow? && request.Some? {
      var adapter := AdapterFor(request.value.capability, request.value.operation);
      if adapter.Some? {
        assert [Outcome(p, request, ctx).1, ExecutionStarted][1] == ExecutionStarted;
        if IsLegacy(request.value.capability) {
          LegacyHasNoAdapter(request.value.capability, request.value.operation);
        } else {
          OutcomeIsDeclarative(p, request.value, ctx);
        }
      }
    }
  }

  lemma OutcomeKind(p: Policy, request: Option<Request>, ctx: Context)
    ensures !Outcome(p, request, ctx).1.ExecutionStarted?
  {
  }

  /** The refusal for want of a bound root is unreachable for scoped capabilities, and certain for unscoped ones. */
  lemma BindingRefusedExactly(p: Policy, request: Option<Request>, ctx: Context, result: AdapterResult)
    requires Starts(p, request, ctx, false)
    requires AdapterFor(request.value.capability, request.value.operation) != Some(SystemInfo)
    ensures var def := Lookup(p.registry, request.value.capability);
            def.Some? && (Execute(p, request, ctx, false, result).0 == Refused(Binding) <==> !def.value.scoped)
  {
    StartedExactly(p, request, ctx, false, result);
    hide WithinScope, AdapterFor, Outcome;
    var req := request.value;
    var def := Lookup(p.registry, req.capability).value;
    if def.scoped {
      BoundRootFinds(p, def, ctx.grants, req.taskId.value, req.resource.value);
    }
  }

  // ---- what the outcome and the log say of each other ----

  predicate Terminal(k: Kind) { k.ExecutionCompleted? || k.ExecutionFailed? || k.ExecutionRejected? || k.LimitExceeded? }

  /**
   * Every call ends with exactly one closing event, the last one, which tells the outcome; the
   * first one of a call that was not killed is the authorization's.
   */
  lemma LogTellsOutcome(p: Policy, request: Option<Request>, ctx: Context, killed: bool, result: AdapterResult)
    ensures var (x, kinds) := Execute(p, request, ctx, killed, result);
            var n := |kinds| - 1;
            && n >= 0 && Terminal(kinds[n]) && (forall k | 0 <= k < n :: !Terminal(kinds[k]))
            && (x.Completed? <==> kinds[n].ExecutionCompleted?) && (x.Failed? <==> kinds[n].ExecutionFailed?)
            && (kinds[n].LimitExceeded? ==> result == Declined(true))
            && (forall k | 0 <= k <= n :: kinds[k].ResultRedacted? ==> k == n - 1 && x.Completed? && result == Finished(true))
            && (if killed then n == 0 else kinds[0] == Outcome(p, request, ctx).1)
  {
    OutcomeIsNoClosing(p, request, ctx);
    hide Outcome, AdapterFor, ShapedDecision, BoundRoot;
  }

  lemma OutcomeIsNoClosing(p: Policy, request: Option<Request>, ctx: Context)
    ensures var kind := Outcome(p, request, ctx).1; !Terminal(kind) && !kind.ExecutionStarted? && !kind.ResultRedacted?
  {
  }

  /** The stage that refuses a call is the first that has a reason to. */
  lemma RefusalExactly(p: Policy, request: Option<Request>, ctx: Context, killed: bool, result: AdapterResult)
    ensures var x := Execute(p, request, ctx, killed, result).0;
            var allowed := !killed && request.Some? && Outcome(p, request, ctx).0.Allow?;
            && (x == Refused(KillSwitch) <==> killed)
            && (x == Refused(Authorization) <==> !killed && !Outcome(p, request, ctx).0.Allow?)
            && (x == Refused(DecisionShape) <==>
                  allowed && (request.value.capability == UNKNOWN || request.value.operation == UNKNOWN))
            && (x == Refused(Asleep) <==>
                  && allowed && request.value.capability != UNKNOWN && request.value.operation != UNKNOWN
                  && ctx.sleep == SLEEP)
  {
    NothingIsDenied(p, ctx);
    hide Outcome, AdapterFor, BoundRoot;
  }

  lemma NothingIsDenied(p: Policy, ctx: Context)
    ensures Outcome(p, None, ctx).0.Deny?
  {
  }

  /** The parameters are those the operation takes: one named text for find and search, none for the tree. */
  predicate ParamsFit(req: Request) {
    if req.capability == FILESYSTEM_FIND then req.params.Some? && req.params.value.Keys == {PATTERN}
    else if req.capability == FILESYSTEM_SEARCH then req.params.Some? && req.params.value.Keys == {QUERY}
    else if req.capability == FILESYSTEM_TREE then req.params.None?
    else true
  }

  /** A started execution on a scoped capability ends as its adapter does, if the parameters fit. */
  lemma ResultDecides(p: Policy, request: Option<Request>, ctx: Context, result: AdapterResult)
    requires Starts(p, request, ctx, false)
    requires request.value.capability != SYSTEM_INFO ==>
               Lookup(p.registry, request.value.capability).Some? && Lookup(p.registry, request.value.capability).value.scoped
    ensures var x := Execute(p, request, ctx, false, result).0;
            if request.value.capability == SYSTEM_INFO then x == if result.Threw? then Failed else Completed
            else if !ParamsFit(request.value) then x == Refused(NoAdapter)
            else x == match result case Finished(_) => Completed case Declined(_) => Refused(NoAdapter) case Threw => Failed
    ensures var kinds := Execute(p, request, ctx, false, result).1;
            request.value.capability != SYSTEM_INFO && ParamsFit(request.value) ==>
              && (ResultRedacted in kinds <==> result == Finished(true))
              && (LimitExceeded in kinds <==> result == Declined(true))
  {
    var req := request.value;
    StartedExactly(p, request, ctx, false, result);
    OutcomeIsNoClosing(p, request, ctx);
    AdapterParams(req);
    if req.capability != SYSTEM_INFO {
      BindingRefusedExactly(p, request, ctx, result);
    }
    hide WithinScope, AdapterFor, Outcome, BoundRoot, ParamsFit, OnlyParam, ShapedDecision;
  }

  lemma AdapterParams(req: Request)
    requires AdapterFor(req.capability, req.operation).Some?
    ensures var a := AdapterFor(req.capability, req.operation).value;
            && (a.SystemInfo? <==> req.capability == SYSTEM_INFO)
            && (!a.SystemInfo? ==>
                  (ParamsFit(req) <==>
                    !((a.FindFiles? && !OnlyParam(req.params, PATTERN))
                      || (a.SearchContents? && !OnlyParam(req.params, QUERY))
                      || (a.ReadTree? && req.params.Some?))))
  {
    assert |SYSTEM_INFO| == 11 && |GIT_READ| == 8 && |FILESYSTEM_SEARCH| == 17;
    assert FILESYSTEM_READ[11] == 'r' as int && FILESYSTEM_FIND[11] == 'f' as int;
    assert FILESYSTEM_TREE[11] == 't' as int;
  }
}
