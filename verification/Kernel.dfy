/** Data shared by the authorization kernel, the executor and the session. */
module Kernel {
  import opened Text

  datatype Sleep = SLEEP | AWAKE

  const MAX_SAFE_INTEGER: nat := 0x1F_FFFF_FFFF_FFFF

  /** The integers that numbers of the program hold and JSON texts give back exactly. */
  type SafeInteger = n: nat | n <= MAX_SAFE_INTEGER

  datatype Family =
    | Filesystem | Terminal | Git | Browser | Screen | AppControl
    | Keyboard | Mouse | Network | Memory | Audit | SystemSleep

  type RiskTier = t: nat | t <= 3

  datatype Definition = Definition(
    id: Str, family: Family, operations: seq<Str>, tier: RiskTier,
    requiresConfirmation: bool, sleepGated: bool, scoped: bool)

  datatype Grant = Grant(grantId: Str, taskId: Str, capability: Str, scope: Str, revoked: bool)

  datatype Confirmation = Confirmation(taskId: Str, capability: Str, operation: Str, resource: Str)

  /** A planner request that passed the strict schema. */
  datatype Request = Request(
    capability: Str, operation: Str, resource: Option<Str>, taskId: Option<Str>, params: Option<map<Str, Str>>)

  /** The security-event vocabulary. */
  datatype Kind =
    | RequestValidationFailed | CapabilityLookupFailed | AuthorizationNoGrant | AuthorizationUnknownTask
    | SleepDenied | OperationDenied | ScopeDenied | AuthorizationDenied
    | ConfirmationRequired | ConfirmationSatisfied | AuthorizationAllowed
    | CapabilityIssued | CapabilityRevoked | SleepEntered | SleepWoken
    | ExecutionRejected | ExecutionStarted | ExecutionCompleted | ExecutionFailed
    | ResultRedacted | LimitExceeded | KillEngaged | ConfirmationRecorded

  datatype LogEvent = LogEvent(number: nat, kind: Kind, sleep: Sleep)

  /** appendEvent: events are numbered by their place in the log. */
  function AppendEvent(log: seq<LogEvent>, kind: Kind, sleep: Sleep): seq<LogEvent> {
    log + [LogEvent(|log| + 1, kind, sleep)]
  }

  function AppendEvents(log: seq<LogEvent>, kinds: seq<Kind>, sleep: Sleep): seq<LogEvent> {
    if kinds == [] then log
    else AppendEvent(AppendEvents(log, kinds[..|kinds| - 1], sleep), kinds[|kinds| - 1], sleep)
  }

  lemma AppendOneMore(log: seq<LogEvent>, kinds: seq<Kind>, kind: Kind, sleep: Sleep)
    ensures AppendEvents(log, kinds + [kind], sleep) == AppendEvent(AppendEvents(log, kinds, sleep), kind, sleep)
  {
    assert (kinds + [kind])[..|kinds|] == kinds;
  }

  /** What is appended is what was asked for, behind an untouched log. */
  lemma {:induction false} AppendedKinds(log: seq<LogEvent>, kinds: seq<Kind>, sleep: Sleep)
    ensures var all := AppendEvents(log, kinds, sleep);
            && |all| == |log| + |kinds| && log <= all
            && forall k | 0 <= k < |kinds| :: all[|log| + k] == LogEvent(|log| + k + 1, kinds[k], sleep)
  {
    if kinds == [] {
    } else {
      AppendedKinds(log, kinds[..|kinds| - 1], sleep);
    }
  }
}
