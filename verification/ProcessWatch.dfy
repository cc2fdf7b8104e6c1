/**
 * Children watched through events: the command runner (src/commands/runner.ts), the transcriber
 * (src/voice/stt.ts) and the microphone helper (src/voice/capture.ts). Data, timer, exit, error and
 * close events may come in any order.
 */
module ProcessWatch {
  import opened Text
  import opened Sequences

  type Byte = b: int | 0 <= b < 256
  type Bytes = seq<Byte>

  const MAX_STREAM_BYTES: nat := 64 * 1024
  const MAX_TRANSCRIPT_BYTES: nat := 16 * 1024
  const MAX_AUDIO_BYTES: nat := 1048576

  // ---- bounded readers ----

  datatype Reader = Reader(kept: Bytes, truncated: bool)

  const EMPTY := Reader([], false)

  function Feed(r: Reader, chunk: Bytes, cap: nat): Reader {
    var remaining := cap - |r.kept|;
    if remaining <= 0 then r.(truncated := true)
    else if |chunk| <= remaining then r.(kept := r.kept + chunk)
    else Reader(r.kept + chunk[..remaining], true)
  }

  function FeedAll(chunks: seq<Bytes>, cap: nat): Reader {
    if chunks == [] then EMPTY else Feed(FeedAll(chunks[..|chunks| - 1], cap), chunks[|chunks| - 1], cap)
  }

  function First(all: Bytes, cap: nat): Bytes { if |all| <= cap then all else all[..cap] }

  /** An empty chunk arrives when the cap has already been reached. */
  predicate EmptyAtCap(chunks: seq<Bytes>, cap: nat) {
    chunks != []
    && var front := chunks[..|chunks| - 1];
       EmptyAtCap(front, cap) || (chunks[|chunks| - 1] == [] && |Concat(front)| >= cap)
  }

  /**
   * A reader keeps exactly the first `cap` bytes, however they are cut into chunks. It says
   * truncated when there are more, and also when an empty chunk arrives at the cap.
   */
  lemma {:induction false} ReaderIsExact(chunks: seq<Bytes>, cap: nat)
    ensures FeedAll(chunks, cap).kept == First(Concat(chunks), cap)
    ensures FeedAll(chunks, cap).truncated <==> |Concat(chunks)| > cap || EmptyAtCap(chunks, cap)
  {
    if chunks == [] {
    } else {
      ReaderIsExact(chunks[..|chunks| - 1], cap);
    }
  }

  predicate NoEmptyChunk(chunks: seq<Bytes>) { forall k | 0 <= k < |chunks| :: chunks[k] != [] }

  /** Streams as they are delivered have no empty chunks; then only the bytes matter. */
  lemma ChunkingDoesNotMatter(a: seq<Bytes>, b: seq<Bytes>, cap: nat)
    requires NoEmptyChunk(a) && NoEmptyChunk(b) && Concat(a) == Concat(b)
    ensures FeedAll(a, cap) == FeedAll(b, cap) == Reader(First(Concat(a), cap), |Concat(a)| > cap)
  {
    ReaderIsExact(a, cap);
    ReaderIsExact(b, cap);
    NoneEmpty(a, cap);
    NoneEmpty(b, cap);
  }

  lemma {:induction false} NoneEmpty(chunks: seq<Bytes>, cap: nat)
    requires NoEmptyChunk(chunks)
    ensures !EmptyAtCap(chunks, cap)
  {
    if chunks == [] {
    } else {
      NoneEmpty(chunks[..|chunks| - 1], cap);
    }
  }

  // ---- the event machine ----

  datatype Role = Command | Transcriber | Microphone
  datatype Stream = Stdout | Stderr
  datatype Signal = Term | Kill

  datatype Event =
    | Data(stream: Stream, chunk: Bytes)
    | Timeout(throws: bool)
    | Grace
    | ProcessError
    | Exited(code: Option<int>)
    | Closed
    | Stop

  datatype Why = SpawnOrProcessError | Overdue | TooLong | NoMicrophone | Malformed

  datatype Outcome =
    | Finished(code: Option<int>, failed: bool, timedOut: bool, out: Reader, err: Reader)
    | Recorded(pcm: Bytes)
    | NotRecorded(why: Why)

  /**
   * `armed`: the timeout has neither fired nor been cleared. `graces`: SIGKILL timers still to
   * fire; nothing clears them. `exit` holds the recorded exit code. `signals` are those attempted.
   */
  datatype Watch = Watch(
    role: Role, out: Reader, err: Reader, armed: bool, graces: nat, timedOut: bool,
    exit: Option<Option<int>>, outcome: Option<Outcome>, signals: seq<Signal>)

  function Start(role: Role): Watch { Watch(role, EMPTY, EMPTY, true, 0, false, None, None, []) }

  function Cap(role: Role): nat {
    match role case Command => MAX_STREAM_BYTES case Transcriber => MAX_TRANSCRIPT_BYTES case Microphone => MAX_AUDIO_BYTES
  }

  predicate ValidPcm(pcm: Bytes) { pcm != [] && |pcm| % 2 == 0 && |pcm| <= MAX_AUDIO_BYTES }

  function Finish(w: Watch, o: Outcome): Watch { if w.outcome.Some? then w else w.(outcome := Some(o)) }

  /** SIGTERM now and SIGKILL after the grace period. */
  function Terminate(w: Watch): Watch { w.(signals := w.signals + [Term], graces := w.graces + 1) }

  function Result(w: Watch, code: Option<int>, failed: bool): Outcome { Finished(code, failed, w.timedOut, w.out, w.err) }

  function OnData(w: Watch, stream: Stream, chunk: Bytes): Watch {
    match w.role
    case Command =>
      if stream.Stdout? then w.(out := Feed(w.out, chunk, Cap(Command))) else w.(err := Feed(w.err, chunk, Cap(Command)))
    case Transcriber => if stream.Stdout? then w.(out := Feed(w.out, chunk, Cap(Transcriber))) else w
    case Microphone =>
      if stream.Stderr? || w.out.truncated then w
      else if |w.out.kept| + |chunk| > MAX_AUDIO_BYTES then Terminate(w.(out := w.out.(truncated := true)))
      else w.(out := w.out.(kept := w.out.kept + chunk))
  }

  function OnTimeout(w: Watch, throws: bool): Watch {
    if !w.armed then w
    else if w.role.Microphone? then Finish(Terminate(w.(armed := false)), NotRecorded(Overdue))
    else
      var t := w.(armed := false, timedOut := true);
      if throws then
        var u := t.(signals := t.signals + [Term]);
        Finish(u, Result(u, None, true))
      else Terminate(t)
  }

  function CloseVerdict(w: Watch): Outcome {
    if w.exit.None? then if w.role.Microphone? then NotRecorded(SpawnOrProcessError) else Result(w, None, true)
    else if w.role.Microphone? then
      if w.out.truncated then NotRecorded(TooLong)
      else if w.exit.value != Some(0) then NotRecorded(NoMicrophone)
      else if !ValidPcm(w.out.kept) then NotRecorded(Malformed)
      else Recorded(w.out.kept)
    else Result(w, w.exit.value, false)
  }

  function Step(w: Watch, e: Event): Watch {
    match e
    case Data(stream, chunk) => OnData(w, stream, chunk)
    case Timeout(throws) => OnTimeout(w, throws)
    case Grace => if w.graces == 0 then w else w.(graces := w.graces - 1, signals := w.signals + [Kill])
    case ProcessError =>
      var t := w.(armed := false);
      Finish(t, if w.role.Microphone? then NotRecorded(SpawnOrProcessError) else Result(t, None, true))
    case Exited(code) =>
      // the runner settles here; the other two wait until their streams are drained
      if w.role.Command? then Finish(w.(armed := false), Result(w, code, false)) else w.(exit := Some(code))
    case Closed => if w.role.Command? then w else Finish(w.(armed := false), CloseVerdict(w))
    case Stop => if w.role.Microphone? then Terminate(w) else w
  }

  function After(w: Watch, es: seq<Event>): Watch {
    if es == [] then w else Step(After(w, es[..|es| - 1]), es[|es| - 1])
  }

  // ---- the live object: one callback per event ----

  class ChildWatch {
    const role: Role
    var out: Reader
    var err: Reader
    var armed: bool
    var graces: nat
    var timedOut: bool
    var exit: Option<Option<int>>
    var settled: bool
    var outcome: Option<Outcome>
    var signals: seq<Signal>

    constructor (role: Role)
      ensures Valid() && Now() == Start(role)
    {
      this.role, out, err, armed, graces, timedOut := role, EMPTY, EMPTY, true, 0, false;
      exit, settled, outcome, signals := None, false, None, [];
    }

    ghost predicate Valid()
      reads this
    {
      settled <==> outcome.Some?
    }

    ghost function Now(): Watch
      reads this
    {
      Watch(role, out, err, armed, graces, timedOut, exit, outcome, signals)
    }

    method Settle(o: Outcome)
      requires Valid()
      modifies this`settled, this`outcome
      ensures Valid() && Now() == Finish(old(Now()), o)
    {
      if settled {
        return;
      }
      settled := true;
      outcome := Some(o);
    }

    method TerminateChild()
      requires Valid()
      modifies this`signals, this`graces
      ensures Valid() && Now() == Terminate(old(Now()))
    {
      signals := signals + [Term];
      graces := graces + 1;
    }

    method TakeData(stream: Stream, chunk: Bytes)
      requires Valid()
      modifies this
      ensures Valid() && Now() == Step(old(Now()), Data(stream, chunk))
    {
      if role == Microphone {
        if stream == Stderr || out.truncated {
          return;
        }
        if |out.kept| + |chunk| > MAX_AUDIO_BYTES {
          out := out.(truncated := true);
          TerminateChild();
          return;
        }
        out := out.(kept := out.kept + chunk);
      } else if stream == Stdout {
        out := Taken(out, chunk, Cap(role));
      } else if role == Command {
        err := Taken(err, chunk, Cap(role));
      }
    }

    /** onData: what fits is kept, and the flag is set when something does not. */
    static method Taken(r: Reader, chunk: Bytes, cap: nat) returns (t: Reader)
      ensures t == Feed(r, chunk, cap)
    {
      var remaining := cap - |r.kept|;
      if remaining <= 0 {
        return r.(truncated := true);
      }
      var slice := if |chunk| <= remaining then chunk else chunk[..remaining];
      t := r.(kept := r.kept + slice);
      if |chunk| > remaining {
        t := t.(truncated := true);
      }
    }

    method TimeoutFires(throws: bool)
      requires Valid()
      modifies this
      ensures Valid() && Now() == Step(old(Now()), Timeout(throws))
    {
      if !armed {
        return;
      }
      armed := false;
      if role == Microphone {
        TerminateChild();
        Settle(NotRecorded(Overdue));
        return;
      }
      timedOut := true;
      if throws {
        signals := signals + [Term];
        Settle(Finished(None, true, timedOut, out, err));
        return;
      }
      TerminateChild();
    }

    method GraceEnds()
      requires Valid()
      modifies this
      ensures Valid() && Now() == Step(old(Now()), Grace)
    {
      if graces > 0 {
        graces := graces - 1;
        signals := signals + [Kill];
      }
    }

    method ErrorOccurs()
      requires Valid()
      modifies this
      ensures Valid() && Now() == Step(old(Now()), ProcessError)
    {
      armed := false;
      Settle(if role == Microphone then NotRecorded(SpawnOrProcessError) else Finished(None, true, timedOut, out, err));
    }

    method ChildExits(code: Option<int>)
      requires Valid()
      modifies this
      ensures Valid() && Now() == Step(old(Now()), Exited(code))
    {
      if role == Command {
        armed := false;
        Settle(Finished(code, false, timedOut, out, err));
      } else {
        exit := Some(code);
      }
    }

    method StreamsClose()
      requires Valid()
      modifies this
      ensures Valid() && Now() == Step(old(Now()), Closed)
    {
      if role == Command {
        return;
      }
      armed := false;
      if exit == None {
        Settle(if role == Microphone then NotRecorded(SpawnOrProcessError) else Finished(None, true, timedOut, out, err));
      } else if role == Transcriber {
        Settle(Finished(exit.value, false, timedOut, out, err));
      } else if out.truncated {
        Settle(NotRecorded(TooLong));
      } else if exit.value != Some(0) {
        Settle(NotRecorded(NoMicrophone));
      } else if !ValidPcm(out.kept) {
        Settle(NotRecorded(Malformed));
      } else {
        Settle(Recorded(out.kept));
      }
    }

    /** The key is released or the session cancelled. */
    method StopChild()
      requires Valid()
      modifies this
      ensures Valid() && Now() == Step(old(Now()), Stop)
    {
      if role == Microphone {
        TerminateChild();
      }
    }
  }

  // ---- what holds for every interleaving ----

  /** The verdict this event settles an unsettled watch with, if it does. */
  function Verdict(w: Watch, e: Event): Option<Outcome> { Step(w.(outcome := None), e).outcome }

  predicate Settles(w: Watch, e: Event) {
    match e
    case Timeout(throws) => w.armed && (w.role.Microphone? || throws)
    case ProcessError => true
    case Exited(_) => w.role.Command?
    case Closed => !w.role.Command?
    case _ => false
  }

  lemma VerdictExactly(w: Watch, e: Event)
    ensures Verdict(w, e).Some? <==> Settles(w, e)
    ensures Step(w, e).outcome == if w.outcome.Some? then w.outcome else Verdict(w, e)
  {
    hide Feed, ValidPcm;
  }

  predicate FirstSettling(w: Watch, es: seq<Event>, k: nat) {
    && k < |es| && Settles(After(w, es[..k]), es[k])
    && forall j | 0 <= j < k :: !Settles(After(w, es[..j]), es[j])
  }

  predicate NoneSettles(w: Watch, es: seq<Event>) { forall j | 0 <= j < |es| :: !Settles(After(w, es[..j]), es[j]) }

  lemma NoneSettlesFront(w: Watch, es: seq<Event>)
    requires es != []
    ensures NoneSettles(w, es) <==>
              NoneSettles(w, es[..|es| - 1]) && !Settles(After(w, es[..|es| - 1]), es[|es| - 1])
  {
    hide Settles, After;
    var n := |es| - 1;
    var front := es[..n];
    assert forall j | 0 <= j < n :: front[..j] == es[..j] && front[j] == es[j];
  }

  lemma {:induction false} UnsettledExactly(w: Watch, es: seq<Event>)
    requires w.outcome.None?
    ensures After(w, es).outcome.None? <==> NoneSettles(w, es)
  {
    hide Step, Settles, Verdict, NoneSettles;
    if es == [] {
      NothingSettles(w);
    } else {
      UnsettledExactly(w, es[..|es| - 1]);
      NoneSettlesFront(w, es);
      VerdictExactly(After(w, es[..|es| - 1]), es[|es| - 1]);
    }
  }

  lemma NothingSettles(w: Watch)
    ensures NoneSettles(w, [])
  {
  }

  lemma {:induction false} SettledVerdict(w: Watch, es: seq<Event>, k: nat)
    requires w.outcome.None? && FirstSettling(w, es, k)
    ensures After(w, es).outcome == Verdict(After(w, es[..k]), es[k])
    ensures After(w, es).outcome.Some?
  {
    hide Step, Settles, Verdict;
    var n := |es| - 1;
    var front := es[..n];
    VerdictExactly(After(w, front), es[n]);
    if k < n {
      assert forall j | 0 <= j <= k :: front[..j] == es[..j] && front[j] == es[j];
      SettledVerdict(w, front, k);
    } else {
      assert forall j | 0 <= j < n :: front[..j] == es[..j] && front[j] == es[j];
      UnsettledExactly(w, front);
    }
  }

  /**
   * Every machine settles exactly at its first settling event, with that event's verdict, and
   * nothing that happens later changes it.
   */
  lemma SettlesOnce(role: Role, es: seq<Event>, more: seq<Event>, k: nat)
    requires FirstSettling(Start(role), es, k)
    ensures After(Start(role), es).outcome == Verdict(After(Start(role), es[..k]), es[k])
    ensures After(Start(role), es + more).outcome == After(Start(role), es).outcome
    ensures After(Start(role), es).outcome.Some?
  {
    hide Step, Settles, Verdict, After;
    assert forall j | 0 <= j < |es| :: (es + more)[..j] == es[..j] && (es + more)[j] == es[j];
    SettledVerdict(Start(role), es, k);
    SettledVerdict(Start(role), es + more, k);
  }

  function Count(s: Signal, signals: seq<Signal>): nat {
    if signals == [] then 0
    else Count(s, signals[..|signals| - 1]) + if signals[|signals| - 1] == s then 1 else 0
  }

  /** In every prefix there are at least as many SIGTERMs as SIGKILLs. */
  predicate Orderly(signals: seq<Signal>) {
    signals == [] || (Orderly(signals[..|signals| - 1]) && Count(Kill, signals) <= Count(Term, signals))
  }

  lemma SignalAdded(signals: seq<Signal>, s: Signal)
    ensures forall x :: Count(x, signals + [s]) == Count(x, signals) + if x == s then 1 else 0
    ensures Orderly(signals + [s]) <==> Orderly(signals) && Count(Kill, signals + [s]) <= Count(Term, signals + [s])
  {
    assert (signals + [s])[..|signals|] == signals;
  }

  lemma StepSignals(w: Watch, e: Event)
    ensures var t := Step(w, e);
            || (t.signals == w.signals && t.graces == w.graces)
            || (t.signals == w.signals + [Term] && t.graces <= w.graces + 1)
            || (t.signals == w.signals + [Kill] && t.graces + 1 == w.graces)
  {
    hide Feed, CloseVerdict, Result;
  }

  /** Every SIGKILL has a SIGTERM of its own before it. */
  lemma {:induction false} TermBeforeKill(role: Role, es: seq<Event>)
    ensures Orderly(After(Start(role), es).signals)
    ensures var w := After(Start(role), es); Count(Kill, w.signals) + w.graces <= Count(Term, w.signals)
  {
    hide Step, Orderly, Count;
    if es == [] {
      NoSignals();
    } else {
      var w, e := After(Start(role), es[..|es| - 1]), es[|es| - 1];
      TermBeforeKill(role, es[..|es| - 1]);
      StepSignals(w, e);
      SignalAdded(w.signals, Term);
      SignalAdded(w.signals, Kill);
    }
  }

  lemma NoSignals()
    ensures Orderly([]) && Count(Kill, []) == 0 == Count(Term, [])
  {
  }

  // ---- what the streams amount to ----

  function ChunksOf(es: seq<Event>, stream: Stream): seq<Bytes> {
    if es == [] then []
    else
      var last := es[|es| - 1];
      ChunksOf(es[..|es| - 1], stream) + if last.Data? && last.stream == stream then [last.chunk] else []
  }

  predicate ReadersHold(w: Watch, out: seq<Bytes>, err: seq<Bytes>) {
    && (!w.role.Microphone? ==> w.out == FeedAll(out, Cap(w.role)))
    && (w.role.Command? ==> w.err == FeedAll(err, Cap(w.role)))
    && (w.role.Microphone? ==> w.out.truncated || w.out.kept == Concat(out))
    && (w.role.Microphone? ==> (w.out.truncated <==> |Concat(out)| > MAX_AUDIO_BYTES))
  }

  lemma StepWithoutData(w: Watch, e: Event)
    requires !e.Data?
    ensures var t := Step(w, e); t.role == w.role && t.out == w.out && t.err == w.err
  {
    hide CloseVerdict, Result;
  }

  lemma StepWithData(w: Watch, e: Event, out: seq<Bytes>, err: seq<Bytes>)
    requires e.Data? && ReadersHold(w, out, err)
    ensures Step(w, e).role == w.role
    ensures ReadersHold(Step(w, e), if e.stream.Stdout? then out + [e.chunk] else out, if e.stream.Stderr? then err + [e.chunk] else err)
  {
    hide Feed, FeedAll, Concat;
    ChunkAdded(out, e.chunk);
    ChunkAdded(err, e.chunk);
  }

  lemma {:induction false} ReadersFollow(role: Role, es: seq<Event>)
    ensures After(Start(role), es).role == role
    ensures ReadersHold(After(Start(role), es), ChunksOf(es, Stdout), ChunksOf(es, Stderr))
  {
    hide Step, ReadersHold, ChunksOf, After;
    if es == [] {
      ReadersAtStart(role);
    } else {
      var front, e := es[..|es| - 1], es[|es| - 1];
      var w := After(Start(role), front);
      ReadersFollow(role, front);
      AfterLast(Start(role), es);
      if e.Data? {
        StepWithData(w, e, ChunksOf(front, Stdout), ChunksOf(front, Stderr));
      } else {
        StepWithoutData(w, e);
        SameReaders(w, Step(w, e), ChunksOf(front, Stdout), ChunksOf(front, Stderr));
      }
    }
  }

  lemma ReadersAtStart(role: Role)
    ensures After(Start(role), []).role == role
    ensures ReadersHold(After(Start(role), []), ChunksOf([], Stdout), ChunksOf([], Stderr))
  {
  }

  lemma AfterLast(w: Watch, es: seq<Event>)
    requires es != []
    ensures var front, e := es[..|es| - 1], es[|es| - 1];
            && After(w, es) == Step(After(w, front), e)
            && forall s :: ChunksOf(es, s) == if e.Data? && e.stream == s then ChunksOf(front, s) + [e.chunk] else ChunksOf(front, s)
  {
    hide Step;
  }

  lemma SameReaders(w: Watch, t: Watch, out: seq<Bytes>, err: seq<Bytes>)
    requires ReadersHold(w, out, err) && t.role == w.role && t.out == w.out && t.err == w.err
    ensures ReadersHold(t, out, err)
  {
  }

  lemma ChunkAdded(chunks: seq<Bytes>, chunk: Bytes)
    ensures Concat(chunks + [chunk]) == Concat(chunks) + chunk
    ensures forall cap :: FeedAll(chunks + [chunk], cap) == Feed(FeedAll(chunks, cap), chunk, cap)
  {
    assert (chunks + [chunk])[..|chunks|] == chunks;
  }

  /** What each role's good outcomes are made of. */
  lemma GoodVerdicts(w: Watch, e: Event)
    ensures var v := Verdict(w, e);
            && (w.role.Microphone? && v.Some? && v.value.Recorded? ==>
                  e == Closed && v.value.pcm == w.out.kept && ValidPcm(w.out.kept) && !w.out.truncated && w.exit == Some(Some(0)))
            && (w.role.Transcriber? && v.Some? && Accepted(v.value) ==> e == Closed && v.value.out == w.out)
            && (w.role.Command? && e.Exited? ==> v == Some(Finished(e.code, false, w.timedOut, w.out, w.err)))
  {
    hide Feed, ValidPcm;
  }

  /** The microphone succeeds only with the whole stream up to its close, within its bound. */
  lemma RecordingIsWhole(es: seq<Event>, k: nat, pcm: Bytes)
    requires FirstSettling(Start(Microphone), es, k) && After(Start(Microphone), es).outcome == Some(Recorded(pcm))
    ensures es[k] == Closed && pcm == Concat(ChunksOf(es[..k], Stdout)) && ValidPcm(pcm)
    ensures exists j | 0 <= j < k :: es[j] == Exited(Some(0))
  {
    hide Step, After, Verdict, Settles, ValidPcm;
    SettlesOnce(Microphone, es, [], k);
    GoodVerdicts(After(Start(Microphone), es[..k]), es[k]);
    ReadersFollow(Microphone, es[..k]);
    ExitWasSeen(Microphone, es[..k]);
  }

  lemma {:induction false} ExitWasSeen(role: Role, es: seq<Event>)
    ensures After(Start(role), es).exit.Some? ==>
              exists j | 0 <= j < |es| :: es[j] == Exited(After(Start(role), es).exit.value)
  {
    hide Feed, CloseVerdict;
    if es == [] {
    } else {
      var n := |es| - 1;
      ExitWasSeen(role, es[..n]);
      if es[n].Exited? {
        assert es[n] == Exited(es[n].code);
      } else if After(Start(role), es[..n]).exit.Some? {
        var j :| 0 <= j < |es[..n]| && es[..n][j] == Exited(After(Start(role), es[..n]).exit.value);
        assert es[j] == es[..n][j];
      }
    }
  }

  /** What the caller of the transcriber takes as a transcript. */
  predicate Accepted(o: Outcome) {
    o.Finished? && !o.timedOut && !o.failed && o.code == Some(0) && !o.out.truncated
  }

  /** An accepted transcript is the whole standard output up to the close. */
  lemma TranscriptIsWhole(es: seq<Event>, k: nat)
    requires FirstSettling(Start(Transcriber), es, k) && After(Start(Transcriber), es).outcome.Some?
    requires Accepted(After(Start(Transcriber), es).outcome.value)
    ensures es[k] == Closed
    ensures After(Start(Transcriber), es).outcome.value.out.kept == Concat(ChunksOf(es[..k], Stdout))
    ensures |Concat(ChunksOf(es[..k], Stdout))| <= 16 * 1024
  {
    hide Step, After, Verdict, Settles;
    SettlesOnce(Transcriber, es, [], k);
    GoodVerdicts(After(Start(Transcriber), es[..k]), es[k]);
    ReadersFollow(Transcriber, es[..k]);
    ReaderIsExact(ChunksOf(es[..k], Stdout), MAX_TRANSCRIPT_BYTES);
  }

  /** A command's result is the first bytes of each stream up to its exit, not up to its close. */
  lemma CommandOutputIsPrefix(es: seq<Event>, k: nat)
    requires FirstSettling(Start(Command), es, k) && es[k].Exited?
    ensures var o := After(Start(Command), es).outcome;
            && o.Some? && o.value.Finished? && o.value.code == es[k].code && !o.value.failed
            && o.value.out == FeedAll(ChunksOf(es[..k], Stdout), MAX_STREAM_BYTES)
            && o.value.err == FeedAll(ChunksOf(es[..k], Stderr), MAX_STREAM_BYTES)
  {
    hide Step, After, Verdict, Settles;
    SettlesOnce(Command, es, [], k);
    GoodVerdicts(After(Start(Command), es[..k]), es[k]);
    ReadersFollow(Command, es[..k]);
  }

  lemma {:induction false} ChunksOfAppend(es: seq<Event>, fs: seq<Event>, stream: Stream)
    ensures ChunksOf(es + fs, stream) == ChunksOf(es, stream) + ChunksOf(fs, stream)
    decreases |fs|
  {
    if fs == [] {
      assert es + fs == es;
    } else {
      var n := |fs| - 1;
      ChunksOfAppend(es, fs[..n], stream);
      assert (es + fs)[..|es| + n] == es + fs[..n];
    }
  }

  lemma {:induction false} EmptyAtCapIsFull(chunks: seq<Bytes>, cap: nat)
    requires EmptyAtCap(chunks, cap)
    ensures |Concat(chunks)| >= cap
  {
    if EmptyAtCap(chunks[..|chunks| - 1], cap) {
      EmptyAtCapIsFull(chunks[..|chunks| - 1], cap);
    }
  }

  lemma FirstExactly(before: Bytes, late: Bytes, cap: nat)
    ensures First(before, cap) == First(before + late, cap) <==> |before| >= cap || late == []
  {
    if late == [] {
      assert before + late == before;
    } else if |before| >= cap {
      assert before[..cap] == (before + late)[..cap];
    } else {
      assert |First(before, cap)| < |First(before + late, cap)|;
    }
  }

  function StreamOf(o: Outcome, stream: Stream): Reader
    requires o.Finished?
  {
    if stream.Stdout? then o.out else o.err
  }

  /**
   * What a command's result keeps of a stream is what a reader of the whole stream would keep
   * exactly when the cap was reached before the exit or nothing arrives after it. Bytes that are
   * lost otherwise are never flagged; and with chunks as they are delivered the flag is right
   * exactly when the cap was exceeded before the exit or is not exceeded at all.
   */
  lemma CommandOutputExactly(es: seq<Event>, k: nat, stream: Stream)
    requires FirstSettling(Start(Command), es, k) && es[k].Exited?
    ensures var o := After(Start(Command), es).outcome;
            var before, late := Concat(ChunksOf(es[..k], stream)), Concat(ChunksOf(es[k..], stream));
            var all := Concat(ChunksOf(es, stream));
            && all == before + late
            && o.Some? && o.value.Finished?
            && var r := StreamOf(o.value, stream);
               && (r.kept == First(all, 64 * 1024) <==> |before| >= 64 * 1024 || late == [])
               && (r.kept != First(all, 64 * 1024) ==> !r.truncated)
               && (NoEmptyChunk(ChunksOf(es[..k], stream)) ==>
                     ((r.truncated <==> |all| > 64 * 1024) <==> |before| > 64 * 1024 || |all| <= 64 * 1024))
  {
    hide After, ChunksOf, FeedAll, Concat, EmptyAtCap, First;
    CommandOutputIsPrefix(es, k);
    var chunks := ChunksOf(es[..k], stream);
    assert es == es[..k] + es[k..];
    ChunksOfAppend(es[..k], es[k..], stream);
    ConcatAppend(chunks, ChunksOf(es[k..], stream));
    ReaderIsExact(chunks, MAX_STREAM_BYTES);
    FirstExactly(Concat(chunks), Concat(ChunksOf(es[k..], stream)), MAX_STREAM_BYTES);
    if EmptyAtCap(chunks, MAX_STREAM_BYTES) {
      EmptyAtCapIsFull(chunks, MAX_STREAM_BYTES);
    }
    if NoEmptyChunk(chunks) {
      NoneEmpty(chunks, MAX_STREAM_BYTES);
    }
  }

  /** So output that is still in the pipe at the exit is lost, and the result does not say so. */
  lemma LateOutputIsLost(code: Option<int>, chunk: Bytes)
    requires chunk != []
    ensures var o := After(Start(Command), [Exited(code), Data(Stdout, chunk), Closed]).outcome;
            o == Some(Finished(code, false, false, EMPTY, EMPTY))
  {
    var es := [Exited(code), Data(Stdout, chunk), Closed];
    assert es[..2][..1] == [Exited(code)] && es[..2] == [Exited(code), Data(Stdout, chunk)];
    assert [Exited(code)][..0] == [];
    assert After(Start(Command), [Exited(code)]) == Step(Start(Command), Exited(code));
  }
}
