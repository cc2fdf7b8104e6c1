# Macky: a verified model of its kernel and its durable edges

Macky is a small security kernel with a durable session around it. This project models the parts of
it that carry state, loops or hand-written parsing, and proves what they promise:

| modules | what they model |
|---|---|
| `Text`, `Utf8`, `Sequences` | UTF-16 texts, their sizes in UTF-8 and in code points, and facts about sequences that several modules share |
| `JsonText`, `DuplicateKeys`, `DuplicateKeysCorrect`, `LooseScan`, `Spelling`, `LlmResponse` | the one-pass duplicate-key scanner for planner answers, compared with the JSON grammar down to the letters of an escape, and characterised on every other text |
| `JsonStringify`, `AuditStore`, `AuditSink`, `AuditGuarantees`, `AuditFindings`, `FileFormat` | the hash-chained audit file: appending, opening, verifying, repairing, torn writes, tampering; and what the files look like as JSON |
| `Kernel`, `Scope`, `Authorize`, `Entitlement`, `Executor` | scope containment, the authorization cascade, what it amounts to in segments, labels and grants, and the single path to an adapter |
| `Session`, `SessionSafety`, `SessionRuns`, `Replacement`, `Boot` | the durable session as a state machine, and sequences of boots that may crash, with the state file replaced through a temporary one |
| `Sorting`, `Discovery`, `DiscoveryReach`, `DiscoveryCounts`, `FindFiles`, `DepthLimit`, `TreeListing` | the bounded walk with its explicit stack, `findFiles`, what the depth limit hides, and the recursive tree listing |
| `Framing` | length-prefixed frames over a stream cut into chunks, and the supervisor's connection |
| `MemoryStore`, `MemoryService`, `MemoryGuarantees`, `MemoryAnswers`, `MemoryPersistence` | the memory store that all tasks share: replacement of the file, noninterference, what is read and written, reopening |
| `ProcessWatch`, `WatchHistory`, `VoiceSlots` | children watched through events in any order, and the slot of the voice session across its suspensions |
| `UrlPolicy`, `WebFetch`, `FetchTrace` | the fetch-URL policy on 32-bit words, the redirect loop and the result bounds |

Conventions. A text is a sequence of UTF-16 code units (`Text.Str`), since the program measures most
of its strings in them; UTF-8 sizes and code points are functions of it. Where the program changes
state step by step the model is a class or a method with a loop, tied by its `ensures` to a function
of the old state; the properties are lemmas about these functions. For each operation at least one
of them describes the result in other terms than the function does: letters and alphabets instead of
arithmetic, segments and routes instead of the code's own tests, the fields of what is written, the
history of a run. These lemmas have names that end in `Exactly` where they go both ways. Whatever
the program calls and does not define comes in as a parameter: SHA-256, JSON.parse with a strict
schema, secret redaction, timestamps, `toLowerCase`, WHATWG URL parsing, the registry of
capabilities, the outcome of every write. The few facts that are used about them are the predicates
`EnvOk`, `ParseOk`, `CodecOk` and `IsJsonParse`: parsing undoes stringifying as long as the numbers
are safe integers, JSON.parse accepts the JSON texts of RFC 8259, SHA-256 gives 64 digits.

## Where code and documentation disagree

The model follows the code. In these places a lemma says exactly how far the promise holds.

- The scanner's comment says it answers false on malformed text. It answers true exactly on the texts
  that begin with a repeat of a much looser grammar (`LooseScan.ReportedExactly`), and some of them are
  no JSON (`LlmResponse.MalformedTextIsReportedToo`); `parseLlmResponse` is not affected, because
  JSON.parse runs first (`LlmResponse.AcceptedExactly`).
- `skipValue` runs past the end of a number, `true`, `false` or `null` to the next separator
  (`DuplicateKeysCorrect.SkipValueEnds`).
- A failed audit write leaves the sink usable exactly when none of the line reached the file; when the
  whole line did, the cursor is one event behind (`AuditGuarantees.FailedWriteAgreesExactly`).
- A broken frame also drops the good frames decoded before it in the same chunk
  (`Framing.BrokenFrameDropsNeighbours`); what is answered are the frames completed before that chunk
  (`Framing.AnsweredExactly`).
- `toRelative` drops entries whose first segment below the root starts with two dots
  (`Scope.ToRelativeExactly`).
- Rolling back a failed grant also removes earlier grants with the same id
  (`SessionSafety.RollbackExactly`).
- The walk calls itself truncated above 2000 entries, and at exactly 2000 when the directory that is
  opened last is another than the start and empty or unreadable, although then nothing is missing
  (`Discovery.WalkRoot`, `Discovery.BothHappenAtTheCap`). `findFiles` does so when the walk does, and when
  200 matches are found with an entry left to look at, whether or not it matches (`FindFiles.FindFiles`).
- The limits are said never to present a truncated result as complete. The depth limit of the walk sets
  no flag: a result hides nothing exactly when no directory at the limit has a visible entry
  (`DepthLimit.DepthCutExactly`), and an unflagged result of `findFiles` is complete for the whole tree
  exactly when nothing that matches lies deeper (`DepthLimit.FindingsCompleteExactly`).
- A command's result is taken at its exit, before its streams are drained. What it keeps of a stream is
  what a reader of the whole stream would keep exactly when the cap was reached before the exit or
  nothing arrives after it; what is lost otherwise is not flagged (`ProcessWatch.CommandOutputExactly`,
  `ProcessWatch.LateOutputIsLost`). The other two watchers wait for the close.
- A memory write is bounded in code points, the schema of the file in UTF-16 units: a write of 4096
  code points can be saved and then keeps the store from opening
  (`MemoryPersistence.LongWriteLocksStore`, `MemoryPersistence.CallReopens`). Page titles have the same
  mismatch (`WebFetch.AstralTitleFails`, `WebFetch.TitlePassesExactly`).
- A memory operation goes on when its authorization event could not be written; only the start event
  is waited for (`MemoryGuarantees.StoreIgnoresLostAuthorization`).
- `boundBytes` does not measure its last cut again. The bound is met for every text exactly when it is
  at least 4092 bytes; the one in use, 128 KiB, is (`WebFetch.FitsFromExactly`).

## Model

| member | source | states |
|---|---|---|
| DuplicateKeys.Scanner.SkipWhite | src/llm/response.ts:28-32 | the cursor passes exactly the white space in front of it |
| DuplicateKeys.Scanner.ReadString | src/llm/response.ts:33-71 | the cursor ends behind the closing quote with the decoded string, or fails, as the reading function on the unread text says |
| DuplicateKeys.Scanner.SkipOneValue | src/llm/response.ts:72-118 | the cursor ends where the skipping function on the unread text ends |
| DuplicateKeys.Scanner.SkipContainer | src/llm/response.ts:81-113 | the depth loop over one bracket kind, with its two-unit jump over escapes that may pass the end of the text |
| DuplicateKeys.Scanner.SkipBareWord | src/llm/response.ts:114-117 | numbers and literals are passed up to the next separator |
| DuplicateKeys.Scanner.ScanMember | src/llm/response.ts:124-160 | one round of the loop gives the answer of the whole scan or leaves the cursor at the next member, with the key remembered |
| DuplicateKeys.Scanner.Scan | src/llm/response.ts:119-160 | the cursor loop terminates and gives the answer of the scanning function for the whole text |
| DuplicateKeysCorrect.ReadCharsDecodes | src/llm/response.ts:33-71 | every spelling of a string is read back as what it denotes, and the cursor stands right behind it |
| DuplicateKeysCorrect.BracketsPassValue | src/llm/response.ts:87-111 | counting one kind of bracket passes any well-formed value, whatever brackets and quotes it contains, at unchanged depth |
| DuplicateKeysCorrect.SkipValueEnds | src/llm/response.ts:72-118 | on any well-formed value skipValue stops at its end, exactly except for a bare word not followed by a separator |
| DuplicateKeysCorrect.ScanOneMember | src/llm/response.ts:124-160 | one member is judged by its decoded key, or the scanner stands at the next member |
| DuplicateKeysCorrect.ScanMembersFindsRepeats | src/llm/response.ts:124-160 | the loop answers true exactly when two decoded keys are equal or one was seen before |
| DuplicateKeysCorrect.ScannerAgreesWithTree | src/llm/response.ts:15-161 | for every JSON text, in any spelling and with any white space, the scanner answers true exactly when the tree is an object with two equal decoded keys |
| LooseScan.ValuePasses | src/llm/response.ts:72-118 | behind a closed string, a block balanced in its own kind of bracket outside strings, or a text without separators, skipValue and the white space after it end exactly at the comma |
| LooseScan.ScanLooseMember | src/llm/response.ts:124-160 | a member of the loose grammar is judged by its decoded key, or the scanner stands behind its comma |
| LooseScan.ReportedExactly | src/llm/response.ts:15-161 | for every text whatsoever, the scanner answers true exactly when the text begins with a brace, loose members, and a key with its colon whose decoded form an earlier member has |
| LooseScan.RepeatIsFinal | src/llm/response.ts:143-145 | once a repeat is found no continuation of the text changes the answer |
| Spelling.Characters | src/llm/response.ts:29-145 | punctuation and white space are the characters they are written as |
| Spelling.DecodePieceExactly | src/llm/response.ts:36-62 | an escape decodes to what its letters denote: the four hexadecimal digits in either alphabet, the eight short letters by a table |
| Spelling.ReadCharsExactly | src/llm/response.ts:33-71 | readString gives a string exactly when a spelling that denotes it and the closing quote stand there |
| Spelling.ReportsEqualMeanings | src/llm/response.ts:15-161 | the scanner reports a JSON text exactly when it is an object two of whose keys denote one string, letter by letter |
| LlmResponse.MalformedTextIsReportedToo | src/llm/response.ts:17-19 | a text that is no JSON and is still reported, against the comment |
| LlmResponse.AcceptedExactly | src/llm/response.ts:163-185 | an answer is accepted exactly when it is text within the limit whose trimmed form is a JSON object with pairwise different keys |
| LlmResponse.RefusedExactly | src/llm/response.ts:163-185 | which reason an answer is refused for |
| LlmResponse.TrimExactly | src/llm/response.ts:171 | trimming takes away exactly the blank units at both ends |
| Utf8.SizesAreReal | src/llm/response.ts:168 | the size of a text is the length of its UTF-8 form, which a strict decoder reads back as its code points |
| JsonStringify.StringifyInjective | src/persistence/audit-store.ts:78-89 | stringified records with fixed key order determine their names and values |
| AuditStore.CanonicalBytesInjective | src/persistence/audit-store.ts:78-93 | the text a hash commits to determines the event |
| AuditStore.JoinRecords | src/persistence/audit-store.ts:198-202 | a file that ends its last line is exactly its records, each closed by a newline |
| AuditStore.VerifyAuditContent | src/persistence/audit-store.ts:195-242 | the loop with its running hash and number collects the events and defects of the file |
| AuditStore.VerifyMeaning | src/persistence/audit-store.ts:195-242 | nothing is wrong exactly on files of whole lines whose events are numbered from 1, name the hash before and are sealed by their own |
| AuditFindings.FindsExactly | src/persistence/audit-store.ts:195-242 | verification returns the events that parse and exactly the defects that the lines have, in their order |
| AuditFindings.FirstDefect | src/persistence/audit-store.ts:104-127 | opening reports the first defect, or goes on behind the last record |
| FileFormat.AuditLineFormat | src/persistence/audit-store.ts:34-93 | a line, and what its hash commits to, is a JSON object with these keys and values in this order |
| FileFormat.SpellExactly | src/persistence/audit-store.ts:78-89 | a unit is written as it is, by its short escape, or by a hexadecimal escape in lower case |
| FileFormat.QuoteExactly | src/persistence/audit-store.ts:78-89 | a string is written unit by unit, and only surrogates of a pair are left as they are |
| AuditSink.OpenAuditSink | src/persistence/audit-store.ts:104-127 | opening verifies everything and gives the cursor behind the last event, the first defect, or the refusal of a file that cannot be read |
| AuditSink.Sink.AppendEvent | src/persistence/audit-store.ts:138-186 | checks, redaction, size caps, the write with any fault, and the cursor that moves only on success |
| AuditSink.AuditFile.RepairToPrefix | src/persistence/audit-store.ts:260-277 | repair keeps the first lines, each closed by a newline, or refuses and changes nothing, also when there is no file |
| AuditGuarantees.OpenedAgrees | src/persistence/audit-store.ts:104-127 | a sink that opened agrees with the events of its file |
| AuditGuarantees.AgreesReopens | src/persistence/audit-store.ts:104-127 | a sink in agreement finds its own cursor on reopening |
| AuditGuarantees.WholeLine | src/persistence/audit-store.ts:160-186 | recording the whole line of the next event adds that event |
| AuditGuarantees.TornIsNoEvent | src/persistence/audit-store.ts:203-225 | no proper part of an event's line parses as an event |
| AuditGuarantees.CrashRecovery | src/persistence/audit-store.ts:195-277 | a write that broke off inside an event fails verification and opening, and repair to the events found gives back the old file |
| AuditGuarantees.CrashBeforeNewline | src/persistence/audit-store.ts:195-277 | when only the newline is lost, repair completes the new event |
| AuditGuarantees.RepairKeeps | src/persistence/audit-store.ts:260-277 | repair to any number of records keeps exactly the first ones |
| AuditGuarantees.AppendAddsOne | src/persistence/audit-store.ts:138-186 | a successful append adds exactly one event within the size cap, a refusal changes nothing |
| AuditGuarantees.AppendWrites | src/persistence/audit-store.ts:138-186 | behind a successful append the last event of the file has the input's kind, epoch and sleep state, the redacted detail, the time, the next number and the hashes |
| AuditGuarantees.AppendedExactly | src/persistence/audit-store.ts:142-171 | whether an append is refused, and for which reason, read off the event it would write |
| AuditGuarantees.FailedWriteAgreesExactly | src/persistence/audit-store.ts:165-184 | a failed write keeps sink and file together exactly when nothing of the line landed |
| AuditGuarantees.AppendsRefineList | src/persistence/audit-store.ts:104-186 | any run of appends keeps the file a chain of old and appended events with the cursor a fresh open would find, exactly when no failed write left a part of its line |
| AuditGuarantees.TamperEvidence | src/persistence/audit-store.ts:78-93 | two chains that end in the same hash are equal, or an event of each is found whose texts differ and have the same SHA-256 value |
| AuditGuarantees.FilesWithEqualHeads | src/persistence/audit-store.ts:195-242 | the same for two files that verify: they hold the same events, or an event of each with colliding texts is found |
| Kernel.AppendedKinds | src/kernel/audit.ts:30-39 | appended events stand in order behind the untouched log, numbered by their place |
| Scope.NormalizePath | src/kernel/capability-model.ts:492-512 | the loop with its stack computes the normal form, or fails on climbing above the root |
| Scope.NormalizeIdempotent | src/kernel/capability-model.ts:492-512 | a normal form is its own normal form |
| Scope.NormalizeDefined | src/kernel/capability-model.ts:492-512 | a path has a normal form exactly when it is absolute and no prefix of it climbs above the root |
| Scope.WalkCancels | src/kernel/capability-model.ts:498-508 | a segment and the ".." behind it cancel, wherever they stand |
| Scope.NormalFormIsDetermined | src/kernel/capability-model.ts:492-512 | cancellation, dropping of empty and dot parts, and refusal above the root leave no other normal form |
| Scope.WalkNormalizes | src/kernel/capability-model.ts:492-512 | the loop with its stack obeys these laws |
| Scope.PathCancels | src/kernel/capability-model.ts:492-512 | on texts, "/c/.." can be taken out of a path |
| Scope.PathWithinIsPrefix | src/kernel/capability-model.ts:544-557 | the string test is the prefix order on segment lists |
| Scope.PathWithinIsPartialOrder | src/kernel/capability-model.ts:544-557 | containment of paths is reflexive, transitive and antisymmetric up to normal form |
| Scope.DomainShapeExactly | src/kernel/capability-model.ts:514-520 | a domain is one letter or digit, or two with at most 251 letters, digits, dots and hyphens between them |
| Scope.DomainWithinIsSuffix | src/kernel/capability-model.ts:514-543 | the string test on domains is the suffix order on labels |
| Scope.DomainWithinIsPartialOrder | src/kernel/capability-model.ts:514-543 | containment of domains is a partial order up to case |
| Scope.RelativeExactly | src/workspace/proposals.ts:50-77 | which relative paths are accepted, and that they are taken as they are |
| Scope.AcceptedPathStaysInside | src/workspace/proposals.ts:50-77 | every accepted relative path, joined to a root, lies within it, with the root's segments in front of its own |
| Scope.ToRelativeExactly | src/workspace/service.ts:96-105 | a path is mapped back exactly when it lies within the root and does not continue with two dots, and joining it again gives the path |
| Authorize.LegacyExactly | src/kernel/policy.ts:44-101 | through the whole evaluator a legacy request is denied exactly when it would read the audit or its action is overlong, and allowed otherwise, asleep or awake, without asking anyone |
| Authorize.Authorize | src/kernel/authorize.ts:114-391 | the cascade of early returns gives one verdict and appends exactly one event, its list of checks explains the verdict, the failed check is the one the event reports, and the tier is the declared one |
| Authorize.AuthorizeGranted | src/kernel/authorize.ts:221-391 | the steps behind the lookup of a live grant |
| Authorize.OutcomeIsDeclarative | src/kernel/authorize.ts:171-391 | the verdict is one predicate over registry, grants, sleep, operation and scope, and one over confirmations |
| Entitlement.WithinExactly | src/kernel/capability-model.ts:529-559 | containment is the prefix order on segments for the path families, the suffix order on labels for the network, and nothing for the others |
| Entitlement.AllowedExactly | src/kernel/authorize.ts:114-391 | a request is allowed exactly when its first declaration, a live grant of its task and capability whose scope contains its resource, the gate, the operation and, from tier two on, a confirmation of just this request let it |
| Entitlement.EventsExactly | src/kernel/authorize.ts:171-391 | the one event names the first thing that is wrong, or how the request was allowed |
| Entitlement.UndeclaredExactly | src/kernel/authorize.ts:119-170 | the events of malformed, legacy and undeclared requests |
| Entitlement.IssuedExactly | src/kernel/task-grants.ts:35-65 | a grant is issued exactly for well-formed ids, a declared capability and a fitting scope, and has just the requested contents |
| Authorize.VerdictMonotone | src/kernel/authorize.ts:186-391 | more live grants, more confirmations and being awake never lower the verdict |
| Authorize.StepsMoveVerdictOneWay | src/kernel/authorize.ts:186-391 | granting and confirming never lower it, revoking and sleeping never raise it |
| Authorize.Revoke | src/kernel/task-grants.ts:68-77 | every grant with the id is marked revoked in its place, and no other changes |
| Executor.LegacyHasNoAdapter | src/executor/executor.ts:71-92 | no legacy capability reaches an adapter |
| Executor.FindBoundRoot | src/executor/executor.ts:120-139 | the early-exit loop finds the scope of the first live containing grant |
| Executor.BoundRootFinds | src/executor/executor.ts:120-139 | a root is found exactly when a live grant of that owner contains the resource |
| Executor.BoundRootExactly | src/executor/executor.ts:120-139 | the root is the scope of the first grant that is live for the pair and contains the resource |
| Executor.Run | src/executor/executor.ts:146-321 | outcome and events of one request, in order, for every stage that may refuse |
| Executor.Perform | src/executor/executor.ts:220-356 | the dispatch behind the start: binding, parameters, the adapter's result and its events |
| Executor.StartedExactly | src/executor/executor.ts:146-218 | execution is logged as started exactly on an allowed, well-shaped, awake request with an adapter, and such a request is permitted and approved |
| Executor.RefusalExactly | src/executor/executor.ts:146-204 | a call is refused at the first stage that has a reason |
| Executor.ResultDecides | src/executor/executor.ts:220-356 | a started execution ends as its adapter does, if the parameters are those of the operation |
| Executor.LogTellsOutcome | src/executor/executor.ts:146-356 | every call ends with one closing event, which tells the outcome |
| Executor.BindingRefusedExactly | src/executor/executor.ts:249-258 | behind an allowed scoped request the refusal for want of a root is unreachable |
| Session.SecureSession.constructor | src/persistence/session.ts:63-81 | a session starts asleep, healthy, with nothing granted, behind boot's own durable event |
| Session.SecureSession.GrantToSession | src/persistence/session.ts:145-161 | issuance is kept only when its event is durable |
| Session.SecureSession.RevokeSessionGrant | src/persistence/session.ts:164-167 | revocation takes effect whether or not its event is durable |
| Session.SecureSession.ConfirmInSession | src/persistence/session.ts:170-180 | the confirmation is added and recorded |
| Session.SecureSession.SleepSession | src/persistence/session.ts:182-185 | sleeping is unconditional and recorded |
| Session.SecureSession.WakeSession | src/persistence/session.ts:188-196 | only a trusted action wakes, and only a transition is recorded |
| Session.SecureSession.EngageSessionKill | src/persistence/session.ts:198-201 | engaging is unconditional and recorded |
| Session.SecureSession.DisengageSessionKill | src/persistence/session.ts:203-208 | only the control key lifts the switch, and nothing is recorded |
| Session.SecureSession.Execute | src/persistence/session.ts:235-302 | the four early refusals in order, then one execution whose events are persisted one by one |
| Session.SecureSession.PersistLogDelta | src/persistence/session.ts:125-142 | every new log event is offered to the audit file, going on after failures, and any failure degrades the session |
| SessionSafety.LiveGrantWasIssued | src/persistence/session.ts:145-167 | every live grant was issued durably in this session and not revoked since |
| SessionSafety.AwakeWasWoken | src/persistence/session.ts:182-196 | an awake session was woken by a trusted action and not put to sleep since |
| SessionSafety.KillWasLifted | src/persistence/session.ts:198-208 | a disengaged switch was lifted with the control key after its last engagement |
| SessionSafety.StepHealth | src/persistence/session.ts:102-142 | a healthy session stays so exactly when every append of the action succeeds, among them one for each event that an execution logs |
| SessionSafety.ConfirmationWasRecorded | src/persistence/session.ts:170-180 | every confirmation in force was given by an action of this session |
| SessionSafety.HealthyMeansNoFailure | src/persistence/session.ts:102-142 | over any run, the session is healthy exactly when no append that an action made has failed |
| SessionSafety.ExecutionIsAuthorized | src/persistence/session.ts:235-302 | in every run, whenever execution starts: live epoch, no append failed so far, woken and not asleep since, kill lifted, an unrevoked grant issued in this session with that task and capability has a scope whose segments or labels contain the resource, and from tier two on an earlier action confirmed this very request |
| SessionSafety.TrailAgreesThroughout | src/persistence/session.ts:102-196 | while healthy, replaying the durable events gives exactly the sleep state and the grants with their revoked flags |
| SessionSafety.ExecutionLogsNoSessionEvent | src/executor/executor.ts:146-356 | no event of an execution can be mistaken for a session event in that replay |
| SessionSafety.RollbackExactly | src/persistence/session.ts:155-159 | the rollback restores the grants exactly when no earlier grant has the same id |
| SessionRuns.AwakeExactly | src/persistence/session.ts:182-196 | after any run the session is awake exactly when a trusted wake-up was not taken back |
| SessionRuns.KilledExactly | src/persistence/session.ts:198-208 | the switch is engaged exactly when an engagement was not lifted with the control key |
| SessionRuns.GrantsExactly | src/persistence/session.ts:145-167 | a grant is live exactly when it was issued durably and neither revoked nor lost to a rollback since |
| SessionRuns.ConfirmationsExactly | src/persistence/session.ts:170-180 | the confirmations in force are those given |
| SessionRuns.ExecutionIsRecorded | src/persistence/session.ts:125-142 | an execution logs its events in order and records them durably in this order, going on behind a failed append |
| SessionRuns.ActionIsRecorded | src/persistence/session.ts:102-208 | every other action records just itself, under the sleep state it leaves |
| SessionRuns.EarlyExactly | src/persistence/session.ts:235-275 | an envelope is turned away for the first of four reasons, and executed otherwise |
| SessionRuns.EarlyIsRecorded | src/persistence/session.ts:235-275 | what an envelope that is turned away leaves behind |
| SessionRuns.StartsOverRuns | src/persistence/session.ts:235-302 | over any run, the exact condition on the earlier actions under which an execution starts |
| Boot.Machine.SaveStateFile | src/persistence/security-state.ts:81-94 | temporary file, sync, chmod and rename broken off at any point or in the middle of the write: loading then finds the old state or the new epoch, whatever is left of the temporary file |
| Boot.StatePayloadInjective | src/persistence/security-state.ts:81-84 | the text of the state file determines the epoch |
| Boot.Machine.Boot | src/bootstrap/boot.ts:39-78 | the ordered steps of boot with a crash or a refusal at any of them |
| Boot.EpochsIncrease | src/persistence/security-state.ts:41-46 | over any boots, the epochs handed out strictly increase, stay safe integers and never exceed the persisted one |
| Boot.BootsExactly | src/bootstrap/boot.ts:39-78 | a session is handed out exactly when nothing crashes or refuses and an epoch is left, with the next epoch already persisted |
| Boot.EpochUsedExactly | src/bootstrap/boot.ts:50-62 | an epoch is used up exactly when the save is reached and finished, whatever happens behind it |
| FileFormat.StateFormat | src/persistence/security-state.ts:19-24 | the state file is a JSON object with its version and the epoch, and a newline |
| Boot.OldEnvelopeNeverExecutes | src/persistence/session.ts:256-267 | an envelope of an earlier session never executes in a later one, whatever happens there |
| Sorting.SortSorted | src/executor/adapters/fs-search.ts:98-151 | sorting by a string key leaves neighbours in order of UTF-16 units |
| Sorting.LeExactly | src/executor/adapters/fs-search.ts:98-151 | the order is that of the first differing unit, with prefixes first |
| Discovery.VisitDirectory | src/executor/adapters/fs-search.ts:92-148 | one directory moves its entries to the result, the stack or the pruned count so that nothing is lost or invented, or stops at the cap |
| Discovery.WalkRoot | src/executor/adapters/fs-search.ts:75-153 | the walk ends with at most 2000 sorted entries; uncut it finds and counts exactly what the recursion on the tree does, cut it finds a part and has listed or pruned 2000 entries; it is cut exactly above the cap, or at the cap when the directory opened last is empty or unreadable |
| Discovery.BothHappenAtTheCap | src/executor/adapters/fs-search.ts:85-104 | two trees of exactly 2000 entries, one walked uncut and one cut although nothing is missing |
| Discovery.SortKeepsTally | src/executor/adapters/fs-search.ts:93-98 | the order in which a directory lists its entries does not change what is visible |
| DiscoveryReach.FoundExactly | src/executor/adapters/fs-search.ts:99-148 | an entry is visible exactly when a route of readable, non-sensitive directories leads to it within the depth and it is a file, a directory, or a link to something else than a directory inside the root |
| DiscoveryReach.RouteIsClear | src/executor/adapters/fs-search.ts:109-144 | nothing on a route is sensitive at any level and no route is deeper than the limit |
| DiscoveryReach.FoundIsClear | src/executor/adapters/fs-search.ts:109-144 | every result lies at depth 1 to the limit and is not sensitive |
| DiscoveryCounts.CountsExactly | src/executor/adapters/fs-search.ts:85-148 | the visits and prunes that are reported are the numbers of entries met, and of sensitive entries, links that lead nowhere, outside, to something sensitive or to a directory, and unreadable directories |
| DiscoveryReach.ReachedOnce | src/executor/adapters/fs-search.ts:105-147 | on directories with distinct slash-free names no path is reached twice |
| DiscoveryReach.WalkIsStrict | src/executor/adapters/fs-search.ts:150-151 | so the sorted result is strictly increasing by path |
| FindFiles.PatternMeaning | src/executor/adapters/fs-search.ts:35-63 | a valid pattern is literal but for one leading star, which stands for at least one unit |
| FindFiles.SelectedExactly | src/executor/adapters/fs-search.ts:201-208 | an entry is selected exactly when its path is contained and its name is the pattern, with at most one leading star for a non-empty stem |
| FindFiles.EscapesExactly | src/executor/adapters/fs-search.ts:201-204 | the entries outside the root are counted as pruned |
| FindFiles.FindFiles | src/executor/adapters/fs-search.ts:172-216 | the result is the start of the filtered walk, at most 200 entries; it is called truncated exactly when the walk was cut or 200 matches were found with an entry left, and otherwise it is complete down to the depth of the walk |
| FindFiles.FindingsMean | src/executor/adapters/fs-search.ts:193-211 | the result is strictly sorted and holds only contained, visible, matching entries, all of them when nothing was cut |
| FindFiles.NameOnRoute | src/executor/adapters/fs-search.ts:205 | the name a pattern is tried on is the last name of the entry's route |
| DepthLimit.DepthCutExactly | src/executor/adapters/fs-search.ts:138-144 | the walk finds all that a deeper one finds exactly when no directory at the depth limit has a visible entry |
| DepthLimit.FindingsCompleteExactly | src/executor/adapters/fs-search.ts:172-216 | an uncut result misses no matching entry of the whole tree exactly when none lies below the depth limit, in particular when nothing visible does |
| TreeListing.TreeBuilder.Build | src/executor/adapters/fs-search.ts:351-415 | with the shared counter, the subtree lists as many nodes in preorder as the budget allows and the flag tells when any may be missing |
| TreeListing.TreeBuilder.ListEntry | src/executor/adapters/fs-search.ts:361-413 | one entry adds its node and its subtree behind what is already listed |
| TreeListing.ReadTree | src/executor/adapters/fs-search.ts:335-422 | the forest is the first 300 nodes of the complete one in preorder; when it is not called truncated it is complete and nothing lies deeper |
| TreeListing.ItemsExactly | src/executor/adapters/fs-search.ts:361-413 | a node with its depth and kind is in the complete listing exactly when a route leads to such an entry at this level |
| TreeListing.DeeperExactly | src/executor/adapters/fs-search.ts:391-404 | the listing says that something lies deeper exactly when a directory at the depth limit has entries |
| TreeListing.FlattenInjective | src/executor/adapters/fs-search.ts:351-415 | preorder with depths determines the forest, so the nodes returned are fixed |
| TreeListing.SurveyDepths | src/executor/adapters/fs-search.ts:391-404 | no listed node is deeper than six levels |
| Framing.WriteFrame | src/supervisor/protocol.ts:40-48 | header and body of an encoded value, or the size error |
| Framing.FrameBytes | src/supervisor/protocol.ts:40-48 | a frame is the big-endian length of the body and the body, and there is none over the limit |
| Framing.EncodedIsSmall | src/supervisor/server.ts:212-219 | the second size check of the handler cannot fire |
| Framing.Decode | src/supervisor/protocol.ts:62-84 | the bytes left over are fewer than a full frame |
| Framing.DecodeFrames | src/supervisor/protocol.ts:62-84 | the shrinking loop gives frames, rest and error of the whole buffer |
| Framing.NextFrame | src/supervisor/protocol.ts:62-84 | what becomes of the next frame of a buffer, from its declared length |
| Framing.DecodeInPieces | src/supervisor/protocol.ts:62-84 | decoding two pieces joined is decoding the first and then its rest with the second, errors included |
| Framing.ReceiveExactly | src/supervisor/server.ts:177-190 | a chunk is taken exactly when what is pending stays within a frame and its header and decodes |
| Framing.StreamRoundTrip | src/supervisor/protocol.ts:40-84 | a stream of encoded values decodes to these values with nothing left |
| Framing.FeedIsDecode | src/supervisor/server.ts:177-230 | however the bytes are cut, a connection survives exactly when the stream decodes and fits, and then has answered its frames in order; otherwise it has answered a start of them |
| Framing.AnsweredExactly | src/supervisor/server.ts:177-230 | a connection dies exactly when some chunk ends it, and has then answered exactly the frames completed before the first such chunk |
| Framing.ChunkedRequestsArrive | src/supervisor/server.ts:177-230 | any chunking of encoded requests that fits the buffer delivers exactly these requests |
| Framing.FrameByFrameFits | src/supervisor/server.ts:177-182 | a request sent in a chunk of its own always fits |
| Framing.RestIsStuck | src/supervisor/protocol.ts:66-75 | what is left over holds no complete frame |
| Framing.BrokenFrameDropsNeighbours | src/supervisor/server.ts:183-187 | a good frame is answered or not depending on whether a broken one shares its chunk |
| Framing.Connection.AnswerFrame | src/supervisor/server.ts:191-221 | one frame is answered with one response behind those already written |
| Framing.RepliesDecode | src/supervisor/server.ts:191-230 | what a client reads back are the dispatched answers in order, with the bounded error for each that is too large |
| Framing.Connection.OnData | src/supervisor/server.ts:177-230 | one response is written for each decoded frame, in order, and the busy flag is down again |
| MemoryStore.PayloadInjective | src/memory/store.ts:119 | the text of the file determines its records |
| MemoryStore.PayloadSize | src/memory/store.ts:114-122 | the size of the file is the sum of its records' sizes and the punctuation |
| FileFormat.MemoryRecordFormat | src/memory/store.ts:21-33 | a record is a JSON object with these keys and values in this order |
| MemoryStore.Store.SaveMemoryStore | src/memory/store.ts:110-139 | bounds first, then the temporary file, then the rename, then the records in memory, broken off at any point |
| MemoryStore.PayloadOpens | src/memory/store.ts:68-99 | a saved text opens to its records exactly when all of them meet the schema |
| MemoryStore.SaveIsAtomic | src/memory/store.ts:110-139 | at every point of failure the file opens to the old records or as the new text does; a failed save changes neither file nor memory |
| MemoryStore.DeletionNeverExceeds | src/memory/store.ts:111-122 | removing records from a store within its bounds keeps it within them |
| MemoryService.Service.TryAcquireSlot | src/memory/service.ts:50-56 | at most one operation holds the slot |
| MemoryService.Service.ReleaseSlot | src/memory/service.ts:58-60 | releasing gives the slot back |
| MemoryService.Service.HandleMemoryProposal | src/memory/service.ts:127-221 | the refusals in order, the authorization with its event, the operation, and the slot free again |
| MemoryService.Service.Dispatch | src/memory/service.ts:206-381 | read, write and delete with their events and the store they leave |
| MemoryService.Service.Search | src/memory/service.ts:254-265 | filtering, the result limit and the shrinking loop |
| MemoryAnswers.ProposalExactly | src/memory/proposal.ts:16-68 | which proposals are accepted |
| MemoryAnswers.RefusedExactly | src/memory/service.ts:127-205 | a call is refused for the first reason that holds |
| MemoryAnswers.ReadDoneExactly | src/memory/service.ts:239-281 | a read is answered exactly when every gate is passed with the capability for reading |
| MemoryAnswers.ReadShows | src/memory/service.ts:254-280 | a read shows the first matching records of the task in store order, field by field, and says truncated exactly when it does not show all |
| MemoryAnswers.WriteDoneExactly | src/memory/service.ts:283-340 | when a write is finished, and the one record it adds, field by field |
| MemoryAnswers.DeleteDoneExactly | src/memory/service.ts:343-381 | when a deletion is finished, and the one record it takes out |
| MemoryAnswers.TrailTellsReply | src/memory/service.ts:127-381 | the events of a call tell its reply |
| MemoryAnswers.BoundsExactly | src/memory/store.ts:110-122 | the bounds of the store and the order in which they are checked |
| MemoryAnswers.OpensExactly | src/memory/store.ts:68-99 | which files open |
| MemoryGuarantees.DeletionSparesExactly | src/memory/service.ts:355-360 | deleting an id spares another owner's records exactly when none of them bears it, which unique ids give |
| MemoryGuarantees.ReadSeesOwnOnly | src/memory/service.ts:254-280 | stores that agree on the reader's own records give one reply |
| MemoryGuarantees.ForeignIdIsUnknown | src/memory/service.ts:352-359 | a foreign id and an unknown id are answered alike and change nothing |
| MemoryGuarantees.WriteSeesOnlyRoom | src/memory/service.ts:283-340 | a write learns of others only whether the bounds still hold |
| MemoryGuarantees.RecordsAfter | src/memory/service.ts:127-381 | the store changes only by one appended record or one removed own id, and only behind every gate and the durable start event |
| MemoryGuarantees.ChangeIsAuthorized | src/memory/service.ts:188-221 | every change has a live grant of that owner for that capability in a healthy, awake session without kill, and its start event is durable |
| MemoryGuarantees.StoreIgnoresLostAuthorization | src/memory/service.ts:195-217 | losing the authorization event does not change what happens to the store; losing the start event stops everything |
| MemoryGuarantees.OthersUntouched | src/memory/service.ts:283-381 | with unique and fresh ids no call removes, alters or adds another owner's record, and ids stay unique |
| MemoryGuarantees.RunSparesOthers | src/memory/service.ts:127-381 | the same over whole runs |
| MemoryGuarantees.ReadUnaffectedByOthers | src/memory/service.ts:239-281 | as long as the audit file stays healthy, a read gives the same reply after any calls of others as before them |
| MemoryGuarantees.AnswerIsExact | src/memory/service.ts:254-266 | an answer is the start of the owner's matching records within both limits, and all of them exactly when it is not called truncated |
| MemoryGuarantees.ShrunkIsLongest | src/memory/service.ts:259-265 | the shrinking loop keeps the longest start of the views that fits the payload limit |
| MemoryPersistence.CallReopens | src/memory/store.ts:21-33 | after any call the file reopens to the records in memory, exactly unless a write of a content longer than the schema's bound passes every gate that stands before the save |
| MemoryPersistence.RunsReopen | src/memory/store.ts:68-139 | as long as no write exceeds that bound the store reopens after any run |
| MemoryPersistence.ReadMeetsContract | src/memory/service.ts:266-274 | on records within the schema no read fails its result contract |
| MemoryPersistence.LongWriteLocksStore | src/memory/proposal.ts:16-22 | a write of 4096 code points that is accepted and saved and after which the store does not open |
| ProcessWatch.ReaderIsExact | src/commands/runner.ts:104-121 | a reader keeps exactly the first bytes up to its cap, and when it says truncated |
| ProcessWatch.ChunkingDoesNotMatter | src/voice/stt.ts:129-140 | without empty chunks the result depends on the bytes only and truncated means more than the cap |
| ProcessWatch.ChildWatch.TakeData | src/voice/capture.ts:102-114 | the data callback of each role |
| ProcessWatch.ChildWatch.TimeoutFires | src/commands/runner.ts:146-161 | the timeout callback of each role, with a kill that may throw |
| ProcessWatch.ChildWatch.ChildExits | src/commands/runner.ts:166-173 | the runner settles at the exit, the others record it |
| ProcessWatch.ChildWatch.StreamsClose | src/voice/capture.ts:151-173 | the close callback and its verdicts |
| ProcessWatch.ChildWatch.ErrorOccurs | src/voice/stt.ts:181-184 | the error callback |
| ProcessWatch.ChildWatch.GraceEnds | src/commands/runner.ts:154-160 | the SIGKILL timer, which nothing clears |
| ProcessWatch.ChildWatch.StopChild | src/voice/session.ts:118-119 | a released key terminates the recording |
| ProcessWatch.SettlesOnce | src/commands/runner.ts:139-145 | for every interleaving each machine settles exactly at its first settling event, with that event's verdict, for good |
| ProcessWatch.TermBeforeKill | src/voice/capture.ts:109-136 | in every prefix of the signals there are at least as many SIGTERMs as SIGKILLs |
| ProcessWatch.RecordingIsWhole | src/voice/capture.ts:151-173 | a recording succeeds only with the whole stream up to its close, valid and within its cap, after exit code 0 |
| ProcessWatch.TranscriptIsWhole | src/voice/stt.ts:194-212 | an accepted transcript is the whole standard output up to the close |
| ProcessWatch.CommandOutputIsPrefix | src/commands/runner.ts:166-180 | a command's result is the first bytes of each stream up to its exit |
| ProcessWatch.CommandOutputExactly | src/commands/runner.ts:139-180 | what a result keeps of a stream is what a reader of the whole stream would keep exactly when the cap was reached before the exit or nothing arrives after it, and when the flag is right |
| ProcessWatch.LateOutputIsLost | src/commands/runner.ts:166-180 | output behind the exit is lost and not flagged |
| WatchHistory.TimersExactly | src/commands/runner.ts:146-161 | the timer runs until the first timeout, error or end, and a child was sent SIGTERM exactly when a timeout came first |
| WatchHistory.GraceExactly | src/commands/runner.ts:154-160 | one SIGKILL is due behind a timeout until the grace period ends |
| WatchHistory.FinishedExactly | src/commands/runner.ts:139-180 | the verdict of a command or a transcriber read off the history of its events |
| WatchHistory.RecordedExactly | src/voice/capture.ts:151-173 | a recording succeeds exactly when its streams close after a last exit with code 0 on valid audio within the bound |
| VoiceSlots.Controller.BeginVoiceSession | src/voice/session.ts:66-92 | a session begins only at a clear gate with a free slot, and takes it |
| VoiceSlots.Controller.EndVoiceSession | src/voice/session.ts:110-120 | ending consumes the session and suspends, or finds it unknown |
| VoiceSlots.Controller.CaptureEnds | src/voice/session.ts:120-134 | the continuation behind the recording |
| VoiceSlots.Controller.TranscriptionEnds | src/voice/session.ts:135-162 | the continuation behind the transcription |
| VoiceSlots.Controller.CancelVoiceSession | src/voice/session.ts:165-176 | cancelling consumes the session and frees the slot |
| VoiceSlots.StepCounts | src/voice/session.ts:49-59 | every step keeps the count of the slot, and one that releases finds it taken and gives exactly one back |
| VoiceSlots.ClampNeverActs | src/voice/session.ts:49-59 | the same at every reachable state, so the clamp never acts |
| VoiceSlots.BeginsExactly | src/voice/session.ts:66-92 | at every reachable state a session begins exactly at a clear gate with a valid configuration when no other is under way |
| VoiceSlots.SlotsConserved | src/voice/session.ts:45-176 | over every interleaving the counter equals live sessions plus suspended ends and never exceeds one, and every session follows the protocol |
| VoiceSlots.OneAnswerOneRelease | src/voice/session.ts:94-176 | a session has at most one terminal result and exactly one release with it, and none while it holds the slot |
| VoiceSlots.CompletedPassedThreeGates | src/voice/session.ts:70-161 | a session that the controller answered with a transcript passed a clear gate at its begin, after its recording and after its transcription |
| UrlPolicy.Ipv4ToInt | src/web/url-policy.ts:25-42 | the accumulating loop computes the value of a dotted quad, or none |
| UrlPolicy.WordCounts | src/web/url-policy.ts:44-51 | the words of the mask tests count up from zero with their numbers, so they are the 32-bit conversion |
| UrlPolicy.QuadReadsBack | src/web/url-policy.ts:25-42 | the text of four octets reads back as their value |
| UrlPolicy.BlockIsInterval | src/web/url-policy.ts:44-62 | the 32-bit mask test of each block is the test for its interval of integers |
| UrlPolicy.Ipv4Denied | src/web/url-policy.ts:52-69 | an address is denied exactly when it lies in one of the eight intervals, by the first that contains it |
| UrlPolicy.DeniedQuads | src/web/url-policy.ts:53-62 | the blocks in dotted-quad notation |
| UrlPolicy.ValidateFetchUrl | src/web/url-policy.ts:73-135 | the chain of refusals, the trailing dot and the label loop |
| UrlPolicy.AcceptedQuadIsPublic | src/web/url-policy.ts:114-121 | an accepted URL with a dotted-quad host lies outside all eight blocks |
| UrlPolicy.AcceptedHost | src/web/url-policy.ts:101-134 | an accepted host is a quad outside all blocks or a name of at least two well-formed labels within 253 units; it has no colon and does not end in localhost |
| FetchTrace.AcceptedExactly | src/web/url-policy.ts:73-135 | a text is accepted exactly for a short plain https URL without credentials, fragment and port to a host that is a public quad or a name of several well-formed labels, none of them localhost at the end |
| WebFetch.BoundBytes | src/web/service.ts:114-128 | the shrinking loop terminates and flags exactly the texts over the bound |
| WebFetch.BoundedFits | src/web/service.ts:114-128 | from 4096 bytes on the cut fits, is a whole number of code points and loses less than one step too much |
| WebFetch.FitsFromExactly | src/web/service.ts:123-125 | the bound is met for every text exactly from 4092 bytes on, and the one in use is far above |
| WebFetch.DeliverPage | src/web/service.ts:390-428 | the final URL is validated again, title and body are cut, and the contract decides |
| WebFetch.RunFetch | src/web/service.ts:316-436 | the redirect loop with the URLs it hands out; the return behind the loop is unreachable |
| WebFetch.FetchIsSafe | src/web/service.ts:324-436 | at most four provider calls, each with the canonical text of an accepted URL, none before the start event; what is delivered is approved and within all bounds |
| FetchTrace.FetchExactly | src/web/service.ts:316-436 | a fetch is a chain of calls, each to where the redirect before it points, and the last answer decides the outcome |
| FetchTrace.TakesWholePoints | src/web/service.ts:114-128 | cutting by code points never splits a pair |
| WebFetch.AstralTitleFails | src/web/results.ts:33-40 | a title of 512 code points that fails the whole fetch |
| WebFetch.TitlePassesExactly | src/web/service.ts:401-410 | a title passes exactly when few enough of its kept code points take two units |

## Left out

- AuditSink.Sink.AppendEvent: a torn write is cut between code units or inside one character that then reads as U+FFFD; the byte values of the file are not modelled, so after such a cut the size cap is checked on the decoded text, which differs from the bytes on disk by at most two per cut.
- AuditGuarantees.AppendsRefineList: assumes one writer; a second supervisor on the same directory still appends its own boot event before it checks the lock.
- Session.SecureSession.Execute: the free-text detail of events is not modelled; the durable trail carries its payloads as data.
- MemoryService.Service.HandleMemoryProposal: a task id that the request schema would reject counts as one without grants.
- Discovery.WalkRoot: the tree does not change during a walk, so neither races between listing and resolving nor vanishing entries appear.
- FindFiles.FindFiles: resolving the start directory and the kind of each result; the walk starts at a directory that has been resolved.
- TreeListing.ReadTree: the node limit can be reached with only sensitive entries left, so truncated is proved to mean that something may be missing, not that something is.
- Boot.Machine.Boot: the audit file enters boot only by whether opening and appending succeed; its content is the subject of the audit modules.
- Framing.Connection.OnData: a failing socket write, the idle timeout and the limit on clients.
- ProcessWatch.SettlesOnce: a spawn or a first write to the child that throws, which ends the call before any event, and the slot for commands.
- ProcessWatch.CommandOutputIsPrefix: the decoding of the kept bytes to text and the truncation by code points behind it.
- VoiceSlots.SlotsConserved: slots and sessions only; a cancelled recording may still be winding down when its slot is free again.
- UrlPolicy.ValidateFetchUrl: the canonical text of an accepted URL goes to the provider without a second length check, and WHATWG parsing itself is a parameter.
- `searchContents`, `listDirectory`, `readFile` and the git adapter: the same walk and limits with file contents, which would add easy members.
- `runSearch` of the web service and the text services: the same authorization flow as the memory service.
- Digest-bound confirmations, the static registries and denylists, the planners, the conversation loop, the launcher and the operator commands.
- The file system below the temporary-file protocol: permissions, ownership and durability of a rename across power loss.
- Regular-expression heuristics for secrets: uninterpreted functions of the text.
- JavaScript numbers beyond the safe integers: epochs are safe integers by their type, sequence numbers because a file within its size cap has too few records to leave them.
- Timers as time: only the order of events is modelled, not how long anything takes.
