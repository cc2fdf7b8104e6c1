/**
 * Boot as a sequence of steps any of which may crash or refuse (src/bootstrap/boot.ts), and the
 * epoch it draws from the security-state file (src/persistence/security-state.ts). The audit file
 * is represented by whether opening it and appending the first event succeed.
 */
module Boot {
  import opened Text
  import opened JsonStringify
  import opened Kernel
  import opened Replacement
  import opened Authorize
  import opened Session
  import opened SessionSafety

  // ---- the state file ----

  /** What loading finds: no file, a valid epoch, or anything else. */
  datatype StateFile = Missing | Valid(epoch: nat) | Invalid

  predicate FileOk(f: StateFile) { f.Valid? ==> 1 <= f.epoch <= MAX_SAFE_INTEGER }

  function StatePayload(epoch: nat): Str {
    Stringify([Field(Ascii("schemaVersion"), IntField(1)), Field(Ascii("epoch"), IntField(epoch))]) + [NEWLINE]
  }

  /** loadStateFile; `parse` stands for JSON.parse and the schema of the state. */
  function Loaded(parse: Str -> Option<nat>, content: Option<Str>): StateFile {
    if content.None? then Missing
    else match parse(content.value) case None => Invalid case Some(epoch) => Valid(epoch)
  }

  /** The schema bounds the epoch, and parsing undoes stringifying. */
  ghost predicate ParseOk(parse: Str -> Option<nat>) {
    && (forall t :: parse(t).Some? ==> 1 <= parse(t).value <= MAX_SAFE_INTEGER)
    && (forall epoch: nat | 1 <= epoch <= MAX_SAFE_INTEGER :: parse(StatePayload(epoch)) == Some(epoch))
  }

  lemma StatePayloadInjective(a: nat, b: nat)
    requires StatePayload(a) == StatePayload(b)
    ensures a == b
  {
    hide Stringify;
    var fs := [Field(Ascii("schemaVersion"), IntField(1)), Field(Ascii("epoch"), IntField(a))];
    var gs := [Field(Ascii("schemaVersion"), IntField(1)), Field(Ascii("epoch"), IntField(b))];
    assert Stringify(fs) == StatePayload(a)[..|StatePayload(a)| - 1];
    assert Stringify(gs) == StatePayload(b)[..|StatePayload(b)| - 1];
    StringifyInjective(fs, gs);
    assert fs[1] == gs[1];
  }

  // ---- one boot ----

  /** Where the process dies outside of the save, if it does. */
  datatype Crash = NoCrash | BeforeSave | AfterSave | AfterOpen | AfterAppend

  /** What happens around one boot. */
  datatype Circumstances = Circumstances(
    configOk: bool, dirOk: bool, readable: bool, save: Break, auditOpens: bool, auditAppends: bool, crash: Crash)

  datatype BootResult = Session(epoch: SafeInteger) | NoSession

  /** nextEpochState and defaultSecurityState: None stands for the exception at the ceiling. */
  function NextEpoch(f: StateFile): Option<nat> {
    match f
    case Missing => Some(1)
    case Valid(epoch) => if epoch >= MAX_SAFE_INTEGER then None else Some(epoch + 1)
    case Invalid => None
  }

  /** One boot: the session it hands out, if any, and the state file it leaves. */
  function BootOnce(f: StateFile, c: Circumstances): (BootResult, StateFile) {
    if !c.configOk || !c.dirOk || !c.readable || f.Invalid? || NextEpoch(f).None? then (NoSession, f)
    else if c.crash.BeforeSave? || !c.save.Smooth? then (NoSession, f)
    else
      var saved := Valid(NextEpoch(f).value);
      if c.crash.AfterSave? || !c.auditOpens || c.crash.AfterOpen? || !c.auditAppends || c.crash.AfterAppend? then (NoSession, saved)
      else (Session(saved.epoch), saved)
  }

  class Machine {
    const parse: Str -> Option<nat>
    var disk: Disk

    constructor (parse: Str -> Option<nat>, disk: Disk)
      ensures this.parse == parse && this.disk == disk
    {
      this.parse, this.disk := parse, disk;
    }

    /** What the state file amounts to; a temporary file left behind does not matter. */
    function StateNow(): StateFile
      reads this
    {
      Loaded(parse, disk.main)
    }

    /** saveStateFile: temporary file, fsync, chmod and rename, broken off at any point. */
    method SaveStateFile(epoch: nat, b: Break) returns (saved: bool)
      modifies this
      ensures saved == b.Smooth? && disk == DiskAfter(old(disk), StatePayload(epoch), b)
      ensures ParseOk(parse) && 1 <= epoch <= MAX_SAFE_INTEGER ==> StateNow() == if saved then Valid(epoch) else old(StateNow())
    {
      hide StatePayload;
      var payload := StatePayload(epoch);
      if b == BreaksAt(OpenTmp) {
        return false;
      }
      disk := disk.(tmp := Some([]));
      if b.BreaksAt? && b.stage.WriteTmp? {
        disk := disk.(tmp := Some(if b.stage.landed < |payload| then payload[..b.stage.landed] else payload));
        return false;
      }
      disk := disk.(tmp := Some(payload));
      if b.BreaksAt? {
        return false;
      }
      disk := Disk(disk.tmp, None);
      return true;
    }

    method Boot(c: Circumstances) returns (r: BootResult)
      requires ParseOk(parse)
      modifies this
      ensures (r, StateNow()) == BootOnce(old(StateNow()), c)
    {
      hide StatePayload;
      if !c.configOk || !c.dirOk || !c.readable {
        return NoSession;
      }
      var loaded := Loaded(parse, disk.main);
      if loaded.Invalid? {
        return NoSession;
      }
      var base := NextEpoch(loaded);
      if base.None? || c.crash.BeforeSave? {
        return NoSession;
      }
      var epoch := base.value;
      var saved := SaveStateFile(epoch, c.save);
      if !saved || c.crash.AfterSave? {
        return NoSession;
      }
      if !c.auditOpens || c.crash.AfterOpen? {
        return NoSession;
      }
      if !c.auditAppends || c.crash.AfterAppend? {
        return NoSession;
      }
      return Session(epoch);
    }
  }

  // ---- any sequence of boots ----

  function Persisted(f: StateFile): nat { if f.Valid? then f.epoch else 0 }

  /** The state file after the boots. */
  function FileAfter(f: StateFile, boots: seq<Circumstances>): StateFile {
    if boots == [] then f
    else BootOnce(FileAfter(f, boots[..|boots| - 1]), boots[|boots| - 1]).1
  }

  /** What boot k of the sequence hands out. */
  function ResultOf(f: StateFile, boots: seq<Circumstances>, k: nat): BootResult
    requires k < |boots|
  {
    BootOnce(FileAfter(f, boots[..k]), boots[k]).0
  }

  lemma FileAfterNext(f: StateFile, boots: seq<Circumstances>, k: nat)
    requires k < |boots|
    ensures FileAfter(f, boots[..k + 1]) == BootOnce(FileAfter(f, boots[..k]), boots[k]).1
  {
    assert boots[..k + 1][..k] == boots[..k];
  }

  lemma {:induction false} PersistedGrows(f: StateFile, boots: seq<Circumstances>, j: nat, k: nat)
    requires j <= k <= |boots| && FileOk(f)
    ensures FileOk(FileAfter(f, boots[..k]))
    ensures Persisted(FileAfter(f, boots[..j])) <= Persisted(FileAfter(f, boots[..k]))
    decreases k
  {
    assert boots[..0] == [];
    if k > 0 {
      FileAfterNext(f, boots, k - 1);
      PersistedGrows(f, boots, if j < k then j else k - 1, k - 1);
    }
  }

  /**
   * Over any sequence of boots that may crash or refuse at any step, the sessions handed out have
   * strictly increasing epochs within the safe integers, and the state file afterwards holds an
   * epoch at least as large as any of them.
   */
  lemma EpochsIncrease(f: StateFile, boots: seq<Circumstances>, j: nat, k: nat)
    requires FileOk(f) && j < k < |boots|
    requires ResultOf(f, boots, j).Session? && ResultOf(f, boots, k).Session?
    ensures ResultOf(f, boots, j).epoch < ResultOf(f, boots, k).epoch <= MAX_SAFE_INTEGER
    ensures ResultOf(f, boots, k).epoch <= Persisted(FileAfter(f, boots))
  {
    FileAfterNext(f, boots, j);
    FileAfterNext(f, boots, k);
    PersistedGrows(f, boots, j + 1, k);
    PersistedGrows(f, boots, k + 1, |boots|);
    assert boots[..|boots|] == boots;
  }

  /** Boot hands out a session exactly when nothing crashes or refuses and an epoch is left. */
  lemma BootsExactly(f: StateFile, c: Circumstances)
    requires FileOk(f)
    ensures BootOnce(f, c).0.Session? <==>
              c == Circumstances(true, true, true, Smooth, true, true, NoCrash) && !f.Invalid? && f != Valid(MAX_SAFE_INTEGER)
    ensures BootOnce(f, c).0.Session? ==> BootOnce(f, c) == (Session(Persisted(f) + 1), Valid(Persisted(f) + 1))
  {
  }

  /**
   * An epoch is used up exactly when the save is reached and finished, whatever happens behind it;
   * otherwise the file is as it was.
   */
  lemma EpochUsedExactly(f: StateFile, c: Circumstances)
    requires FileOk(f)
    ensures var after := BootOnce(f, c).1;
            var saves := c.configOk && c.dirOk && c.readable && !f.Invalid? && f != Valid(MAX_SAFE_INTEGER) && !c.crash.BeforeSave? && c.save.Smooth?;
            after == if saves then Valid(Persisted(f) + 1) else f
  {
  }

  /** An envelope made for an earlier session is never executed by a later one, whatever happens in it. */
  lemma OldEnvelopeNeverExecutes(f: StateFile, boots: seq<Circumstances>, j: nat, k: nat,
                                 p: Policy, key: nat, actions: seq<Action>, n: nat)
    requires FileOk(f) && j < k < |boots|
    requires ResultOf(f, boots, j).Session? && ResultOf(f, boots, k).Session?
    requires n < |actions| && actions[n].RunDurable? && actions[n].envelope.Some?
    requires actions[n].envelope.value.epoch == ResultOf(f, boots, j).epoch
    ensures !StartsIn(p, SessionSafety.After(p, Fresh(ResultOf(f, boots, k).epoch, key), actions[..n]), actions[n])
  {
    EpochsIncrease(f, boots, j, k);
    var epoch := ResultOf(f, boots, k).epoch;
    if StartsIn(p, SessionSafety.After(p, Fresh(epoch, key), actions[..n]), actions[n]) {
      ExecutionIsAuthorized(p, epoch, key, actions, n);
    }
  }
}
