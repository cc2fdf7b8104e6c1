/**
 * Push-to-talk sessions of src/voice/session.ts. endVoiceSession suspends twice, so begin, end and
 * cancel interleave with the continuations; each call below is one uninterrupted stretch.
 */
module VoiceSlots {
  import opened Text

  const MAX_CONCURRENT_SESSIONS: nat := 1

  datatype Gate = Gate(asleep: bool, killed: bool) {
    predicate Clear() { !asleep && !killed }
  }

  /** Where an ended session is suspended: at the recording or at the transcription. */
  datatype Phase = AwaitCapture | AwaitTranscript

  datatype Status = Completed(transcript: Str) | Refused | Failed | Cancelled

  /** What happens to a session, in order. */
  datatype Deed =
    | Began(id: nat, gate: Gate)
    | CaptureTaken(id: nat, gate: Gate)
    | TranscriptTaken(id: nat, gate: Gate)
    | Released(id: nat)
    | Answered(id: nat, status: Status)

  datatype Voice = Voice(inFlight: nat, nextId: nat, live: set<nat>, ends: map<nat, Phase>, trace: seq<Deed>)

  datatype Call =
    | Begin(gate: Gate, validConfig: bool)
    | End(id: nat)
    | CaptureDone(id: nat, captured: bool, gate: Gate)
    | TranscribeDone(id: nat, transcript: Option<Str>, gate: Gate)
    | Cancel(id: nat)

  const INITIAL := Voice(0, 1, {}, map[], [])

  /** releaseVoiceSlot with its clamp, on behalf of a session. */
  function Release(v: Voice, id: nat): Voice {
    v.(inFlight := if v.inFlight == 0 then 0 else v.inFlight - 1, trace := v.trace + [Released(id)])
  }

  function Answer(v: Voice, id: nat, status: Status): Voice { v.(trace := v.trace + [Answered(id, status)]) }

  /** The continuation ends: nothing of the session is left. */
  function Leave(v: Voice, id: nat): Voice { v.(ends := v.ends - {id}) }

  predicate Suspended(v: Voice, id: nat, phase: Phase) { id in v.ends && v.ends[id] == phase }

  function Step(v: Voice, c: Call): Voice {
    match c
    case Begin(gate, validConfig) =>
      if !gate.Clear() || !validConfig || v.inFlight >= MAX_CONCURRENT_SESSIONS then v
      else
        v.(inFlight := v.inFlight + 1, live := v.live + {v.nextId}, nextId := v.nextId + 1,
           trace := v.trace + [Began(v.nextId, gate)])
    case End(id) =>
      if id !in v.live then v else v.(live := v.live - {id}, ends := v.ends[id := AwaitCapture])
    case CaptureDone(id, captured, gate) =>
      if !Suspended(v, id, AwaitCapture) then v
      else if !gate.Clear() then Leave(Answer(Release(v, id), id, Refused), id)
      else if !captured then Leave(Answer(Release(v, id), id, Failed), id)
      else v.(ends := v.ends[id := AwaitTranscript], trace := v.trace + [CaptureTaken(id, gate)])
    case TranscribeDone(id, transcript, gate) =>
      if !Suspended(v, id, AwaitTranscript) then v
      else
        var w := Release(v, id);
        if transcript.None? then Leave(Answer(w, id, Failed), id)
        else if !gate.Clear() then Leave(Answer(w, id, Refused), id)
        else Leave(Answer(w.(trace := w.trace + [TranscriptTaken(id, gate)]), id, Completed(transcript.value)), id)
    case Cancel(id) =>
      if id !in v.live then v else Answer(Release(v.(live := v.live - {id}), id), id, Cancelled)
  }

  function After(calls: seq<Call>): Voice {
    if calls == [] then INITIAL else Step(After(calls[..|calls| - 1]), calls[|calls| - 1])
  }

  // ---- the controller object ----

  datatype BeginReply = Started(sessionId: nat) | NotStarted
  datatype Reply = Replied(status: Status) | UnknownSession | Suspends

  class Controller {
    var voiceInFlight: nat
    var nextSessionId: nat
    var liveSessions: set<nat>
    var suspended: map<nat, Phase>
    ghost var trace: seq<Deed>

    constructor ()
      ensures Now() == INITIAL
    {
      voiceInFlight, nextSessionId, liveSessions, suspended, trace := 0, 1, {}, map[], [];
    }

    ghost function Now(): Voice
      reads this
    {
      Voice(voiceInFlight, nextSessionId, liveSessions, suspended, trace)
    }

    method ReleaseVoiceSlot(id: nat)
      modifies this`voiceInFlight, this`trace
      ensures Now() == Release(old(Now()), id)
    {
      voiceInFlight := if voiceInFlight == 0 then 0 else voiceInFlight - 1;
      trace := trace + [Released(id)];
    }

    method BeginVoiceSession(gate: Gate, validConfig: bool) returns (r: BeginReply)
      modifies this
      ensures Now() == Step(old(Now()), Begin(gate, validConfig))
      ensures r == if Now() == old(Now()) then NotStarted else Started(old(nextSessionId))
    {
      if gate.asleep || gate.killed || !validConfig {
        return NotStarted;
      }
      if voiceInFlight >= MAX_CONCURRENT_SESSIONS {
        return NotStarted;
      }
      voiceInFlight := voiceInFlight + 1;
      var id := nextSessionId;
      nextSessionId := nextSessionId + 1;
      liveSessions := liveSessions + {id};
      trace := trace + [Began(id, gate)];
      return Started(id);
    }

    /** endVoiceSession up to the first suspension. */
    method EndVoiceSession(id: nat) returns (r: Reply)
      modifies this
      ensures Now() == Step(old(Now()), End(id))
      ensures r == if id in old(liveSessions) then Suspends else UnknownSession
    {
      if id !in liveSessions {
        return UnknownSession;
      }
      liveSessions := liveSessions - {id};
      suspended := suspended[id := AwaitCapture];
      return Suspends;
    }

    /** endVoiceSession from the end of the recording to the second suspension. */
    method CaptureEnds(id: nat, captured: bool, gate: Gate) returns (r: Reply)
      requires Suspended(Now(), id, AwaitCapture)
      modifies this
      ensures Now() == Step(old(Now()), CaptureDone(id, captured, gate))
      ensures r == if !gate.Clear() then Replied(Refused) else if !captured then Replied(Failed) else Suspends
      ensures r.Replied? ==> trace == old(trace) + [Released(id), Answered(id, r.status)]
    {
      if gate.asleep || gate.killed {
        ReleaseVoiceSlot(id);
        suspended, trace := suspended - {id}, trace + [Answered(id, Refused)];
        return Replied(Refused);
      }
      if !captured {
        ReleaseVoiceSlot(id);
        suspended, trace := suspended - {id}, trace + [Answered(id, Failed)];
        return Replied(Failed);
      }
      suspended, trace := suspended[id := AwaitTranscript], trace + [CaptureTaken(id, gate)];
      return Suspends;
    }

    /** endVoiceSession from the end of the transcription. */
    method TranscriptionEnds(id: nat, transcript: Option<Str>, gate: Gate) returns (status: Status)
      requires Suspended(Now(), id, AwaitTranscript)
      modifies this
      ensures Now() == Step(old(Now()), TranscribeDone(id, transcript, gate))
      ensures status ==
                if transcript.None? then Failed else if !gate.Clear() then Refused else Completed(transcript.value)
      ensures trace[|trace| - 1..] == [Answered(id, status)]
    {
      ReleaseVoiceSlot(id);
      suspended := suspended - {id};
      if transcript.None? {
        trace := trace + [Answered(id, Failed)];
        return Failed;
      }
      if gate.asleep || gate.killed {
        trace := trace + [Answered(id, Refused)];
        return Refused;
      }
      trace := trace + [TranscriptTaken(id, gate), Answered(id, Completed(transcript.value))];
      assert old(trace) + [Released(id)] + [TranscriptTaken(id, gate)] + [Answered(id, Completed(transcript.value))] == trace;
      return Completed(transcript.value);
    }

    method CancelVoiceSession(id: nat) returns (r: Reply)
      modifies this
      ensures Now() == Step(old(Now()), Cancel(id))
      ensures r == if id in old(liveSessions) then Replied(Cancelled) else UnknownSession
      ensures trace == if r.Replied? then old(trace) + [Released(id), Answered(id, Cancelled)] else old(trace)
    {
      if id !in liveSessions {
        return UnknownSession;
      }
      liveSessions := liveSessions - {id};
      ReleaseVoiceSlot(id);
      trace := trace + [Answered(id, Cancelled)];
      return Replied(Cancelled);
    }
  }

  // ---- the life of one session, read off the trace ----

  datatype Life = Unborn | Open | Captured | Freed(captured: bool) | Cleared | Over(status: Status) | Broken

  /**
   * The protocol: begun at a clear gate, perhaps captured at a clear gate, one release, then one
   * answer. Only a session that was captured and passed the gate a third time is completed.
   */
  function Next(l: Life, d: Deed): Life {
    match d
    case Began(_, gate) => if l.Unborn? && gate.Clear() then Open else Broken
    case CaptureTaken(_, gate) => if l.Open? && gate.Clear() then Captured else Broken
    case Released(_) => if l.Open? then Freed(false) else if l.Captured? then Freed(true) else Broken
    case TranscriptTaken(_, gate) => if l == Freed(true) && gate.Clear() then Cleared else Broken
    case Answered(_, status) =>
      if status.Completed? then if l.Cleared? then Over(status) else Broken
      else if l.Freed? then Over(status) else Broken
  }

  function LifeOf(trace: seq<Deed>, id: nat): Life {
    if trace == [] then Unborn
    else
      var l := LifeOf(trace[..|trace| - 1], id);
      var d := trace[|trace| - 1];
      if d.id == id then Next(l, d) else l
  }

  lemma LifeNext(trace: seq<Deed>, d: Deed, id: nat)
    ensures LifeOf(trace + [d], id) == if d.id == id then Next(LifeOf(trace, id), d) else LifeOf(trace, id)
  {
    assert (trace + [d])[..|trace|] == trace;
  }

  /** Which life the state of the controller stands for. */
  predicate Matches(v: Voice, id: nat) {
    var l := LifeOf(v.trace, id);
    if id in v.live then l == Open
    else if id in v.ends then l == (if v.ends[id].AwaitCapture? then Open else Captured)
    else if 1 <= id < v.nextId then l.Over?
    else l == Unborn
  }

  predicate Counted(v: Voice) { v.inFlight == |v.live| + |v.ends| <= MAX_CONCURRENT_SESSIONS }

  predicate IdsKnown(v: Voice) {
    && v.nextId >= 1
    && (forall id | id in v.live :: 1 <= id < v.nextId && id !in v.ends)
    && (forall id | id in v.ends :: 1 <= id < v.nextId)
  }

  ghost predicate Consistent(v: Voice) {
    Counted(v) && IdsKnown(v) && forall id: nat :: Matches(v, id)
  }

  lemma MapShrinks(m: map<nat, Phase>, id: nat)
    requires id in m
    ensures |m - {id}| == |m| - 1
  {
    assert (m - {id}).Keys == m.Keys - {id};
    assert |m.Keys - {id}| == |m.Keys| - 1;
    assert |(m - {id}).Keys| == |m - {id}| && |m.Keys| == |m|;
  }

  lemma MapGrows(m: map<nat, Phase>, id: nat, p: Phase)
    ensures |m[id := p]| == if id in m then |m| else |m| + 1
  {
    var n := m[id := p];
    assert n.Keys == m.Keys + {id};
    assert |n.Keys| == |n| && |m.Keys| == |m|;
  }

  lemma BeginLives(v: Voice, gate: Gate, validConfig: bool, id: nat)
    requires IdsKnown(v) && Matches(v, id)
    ensures Matches(Step(v, Begin(gate, validConfig)), id)
  {
    hide LifeOf;
    LifeNext(v.trace, Began(v.nextId, gate), id);
  }

  lemma CaptureLives(v: Voice, i: nat, captured: bool, gate: Gate, id: nat)
    requires IdsKnown(v) && Matches(v, id) && Matches(v, i)
    ensures Matches(Step(v, CaptureDone(i, captured, gate)), id)
  {
    hide LifeOf;
    LifeNext(v.trace, CaptureTaken(i, gate), id);
    LifeNext(v.trace, Released(i), id);
    LifeNext(v.trace + [Released(i)], Answered(i, if gate.Clear() then Failed else Refused), id);
  }

  lemma TranscribeLives(v: Voice, i: nat, transcript: Option<Str>, gate: Gate, id: nat)
    requires IdsKnown(v) && Matches(v, id) && Matches(v, i)
    ensures Matches(Step(v, TranscribeDone(i, transcript, gate)), id)
  {
    hide LifeOf;
    var freed := v.trace + [Released(i)];
    LifeNext(v.trace, Released(i), id);
    if transcript.Some? && gate.Clear() {
      LifeNext(freed, TranscriptTaken(i, gate), id);
      LifeNext(freed + [TranscriptTaken(i, gate)], Answered(i, Completed(transcript.value)), id);
    } else {
      LifeNext(freed, Answered(i, if transcript.None? then Failed else Refused), id);
    }
  }

  lemma CancelLives(v: Voice, i: nat, id: nat)
    requires IdsKnown(v) && Matches(v, id) && Matches(v, i)
    ensures Matches(Step(v, Cancel(i)), id)
  {
    hide LifeOf;
    LifeNext(v.trace, Released(i), id);
    LifeNext(v.trace + [Released(i)], Answered(i, Cancelled), id);
  }

  lemma StepLives(v: Voice, c: Call, id: nat)
    requires Consistent(v)
    ensures Matches(Step(v, c), id)
  {
    hide Step, LifeOf, IdsKnown, Counted;
    assert Matches(v, id);
    match c
    case Begin(gate, validConfig) => BeginLives(v, gate, validConfig, id);
    case End(i) => EndLives(v, i, id);
    case CaptureDone(i, captured, gate) => CaptureLives(v, i, captured, gate, id);
    case TranscribeDone(i, transcript, gate) => TranscribeLives(v, i, transcript, gate, id);
    case Cancel(i) => CancelLives(v, i, id);
  }

  lemma EndLives(v: Voice, i: nat, id: nat)
    requires IdsKnown(v) && Matches(v, id)
    ensures Matches(Step(v, End(i)), id)
  {
    hide LifeOf;
  }

  /** Something between the two states has released the slot. */
  predicate Frees(v: Voice, w: Voice) { exists k | |v.trace| <= k < |w.trace| :: w.trace[k].Released? }

  /** A release finds the slot taken and gives exactly one back; nothing else lowers the counter. */
  predicate Unclamped(v: Voice, w: Voice) {
    if Frees(v, w) then v.inFlight >= 1 && w.inFlight == v.inFlight - 1 else w.inFlight >= v.inFlight
  }

  lemma StepCounts(v: Voice, c: Call)
    requires Counted(v) && IdsKnown(v)
    ensures Counted(Step(v, c)) && Unclamped(v, Step(v, c))
  {
    hide Step, Counted, IdsKnown, Unclamped;
    match c
    case Begin(gate, validConfig) => BeginCounts(v, gate, validConfig);
    case End(id) => EndCounts(v, id);
    case CaptureDone(id, captured, gate) => CaptureCounts(v, id, captured, gate);
    case TranscribeDone(id, transcript, gate) => TranscribeCounts(v, id, transcript, gate);
    case Cancel(id) => CancelCounts(v, id);
  }

  lemma BeginCounts(v: Voice, gate: Gate, validConfig: bool)
    requires Counted(v) && IdsKnown(v)
    ensures var w := Step(v, Begin(gate, validConfig)); Counted(w) && Unclamped(v, w)
  {
    assert v.nextId !in v.live;
  }

  lemma EndCounts(v: Voice, id: nat)
    requires Counted(v) && IdsKnown(v)
    ensures var w := Step(v, End(id)); Counted(w) && Unclamped(v, w)
  {
    MapGrows(v.ends, id, AwaitCapture);
  }

  lemma CaptureCounts(v: Voice, id: nat, captured: bool, gate: Gate)
    requires Counted(v)
    ensures var w := Step(v, CaptureDone(id, captured, gate)); Counted(w) && Unclamped(v, w)
  {
    MapGrows(v.ends, id, AwaitTranscript);
    LeaveCounts(v, id);
    var w := Step(v, CaptureDone(id, captured, gate));
    assert |w.trace| > |v.trace| ==> w.trace[|v.trace|] == if gate.Clear() && captured then CaptureTaken(id, gate) else Released(id);
  }

  lemma TranscribeCounts(v: Voice, id: nat, transcript: Option<Str>, gate: Gate)
    requires Counted(v)
    ensures var w := Step(v, TranscribeDone(id, transcript, gate)); Counted(w) && Unclamped(v, w)
  {
    LeaveCounts(v, id);
    var w := Step(v, TranscribeDone(id, transcript, gate));
    assert |w.trace| > |v.trace| ==> w.trace[|v.trace|] == Released(id);
  }

  lemma CancelCounts(v: Voice, id: nat)
    requires Counted(v)
    ensures var w := Step(v, Cancel(id)); Counted(w) && Unclamped(v, w)
  {
    var w := Step(v, Cancel(id));
    assert |w.trace| > |v.trace| ==> w.trace[|v.trace|] == Released(id);
  }

  lemma LeaveCounts(v: Voice, id: nat)
    requires Counted(v)
    ensures id in v.ends ==> v.inFlight >= 1 && |v.ends - {id}| == |v.ends| - 1
  {
    if id in v.ends {
      MapShrinks(v.ends, id);
    }
  }

  /**
   * Over every interleaving: the counter equals the live sessions plus the ends that still hold
   * the slot, it never exceeds one, and every session's life follows the protocol.
   */
  lemma {:induction false} SlotsConserved(calls: seq<Call>)
    ensures Consistent(After(calls))
  {
    hide Step, Matches, Counted, IdsKnown;
    if calls == [] {
      InitialLives();
    } else {
      var v, c := After(calls[..|calls| - 1]), calls[|calls| - 1];
      SlotsConserved(calls[..|calls| - 1]);
      StepCounts(v, c);
      StepIds(v, c);
      forall id: nat ensures Matches(Step(v, c), id) {
        StepLives(v, c, id);
      }
    }
  }

  lemma InitialLives()
    ensures Consistent(INITIAL)
  {
  }

  lemma StepIds(v: Voice, c: Call)
    requires IdsKnown(v)
    ensures IdsKnown(Step(v, c))
  {
  }

  // ---- what that gives ----

  function Answers(trace: seq<Deed>, id: nat): nat {
    if trace == [] then 0
    else
      var d := trace[|trace| - 1];
      Answers(trace[..|trace| - 1], id) + if d.Answered? && d.id == id then 1 else 0
  }

  function Releases(trace: seq<Deed>, id: nat): nat {
    if trace == [] then 0
    else
      var d := trace[|trace| - 1];
      Releases(trace[..|trace| - 1], id) + if d.Released? && d.id == id then 1 else 0
  }

  lemma {:induction false} LifeCounts(trace: seq<Deed>, id: nat)
    requires LifeOf(trace, id) != Broken
    ensures var l := LifeOf(trace, id);
            && Answers(trace, id) == (if l.Over? then 1 else 0)
            && Releases(trace, id) == (if l.Over? || l.Freed? || l.Cleared? then 1 else 0)
  {
    if trace == [] {
    } else {
      LifeCounts(trace[..|trace| - 1], id);
    }
  }

  lemma MatchesMeans(v: Voice, id: nat)
    requires Matches(v, id) && IdsKnown(v)
    ensures var l := LifeOf(v.trace, id);
            && l != Broken && !l.Freed? && !l.Cleared?
            && (l.Over? <==> 1 <= id < v.nextId && id !in v.live && id !in v.ends)
  {
    hide LifeOf;
  }

  /** A session has at most one terminal result, with exactly one release; while it holds the slot it has neither. */
  lemma OneAnswerOneRelease(calls: seq<Call>, id: nat)
    ensures var v := After(calls);
            && Answers(v.trace, id) == Releases(v.trace, id) <= 1
            && (Answers(v.trace, id) == 1 <==> 1 <= id < v.nextId && id !in v.live && id !in v.ends)
  {
    SlotsConserved(calls);
    MatchesMeans(After(calls), id);
    LifeCounts(After(calls).trace, id);
  }

  /** In every reachable state, a step that releases finds the slot taken: the clamp never acts. */
  lemma ClampNeverActs(calls: seq<Call>, c: Call)
    ensures Unclamped(After(calls), Step(After(calls), c))
  {
    hide Step, Unclamped;
    SlotsConserved(calls);
    StepCounts(After(calls), c);
  }

  /** At every reachable state a session begins exactly at a clear gate, with a valid configuration, when no other is under way. */
  lemma BeginsExactly(calls: seq<Call>, gate: Gate, validConfig: bool)
    ensures var v, w := After(calls), Step(After(calls), Begin(gate, validConfig));
            var begins := !gate.asleep && !gate.killed && validConfig && v.live == {} && v.ends == map[];
            && (w.trace != v.trace <==> begins)
            && (begins ==> w.trace == v.trace + [Began(v.nextId, gate)] && w.live == {v.nextId} && w.nextId == v.nextId + 1)
            && (!begins ==> w == v)
  {
    SlotsConserved(calls);
    var v := After(calls);
    assert v.inFlight == 0 <==> v.live == {} && v.ends == map[] by {
      assert |v.live| == 0 <==> v.live == {};
      assert |v.ends| == 0 <==> v.ends == map[];
    }
  }

  predicate Occurs(trace: seq<Deed>, k: nat, id: nat) { k < |trace| && trace[k].id == id }

  lemma {:induction false} LifePassed(trace: seq<Deed>, id: nat) returns (b: nat, c: nat, t: nat)
    ensures var l := LifeOf(trace, id);
            && (l.Open? || l.Captured? || l == Freed(true) || l.Cleared? || (l.Over? && l.status.Completed?) ==>
                  Occurs(trace, b, id) && trace[b].Began? && trace[b].gate.Clear())
            && (l.Captured? || l == Freed(true) || l.Cleared? || (l.Over? && l.status.Completed?) ==>
                  Occurs(trace, c, id) && b < c && trace[c].CaptureTaken? && trace[c].gate.Clear())
            && (l.Cleared? || (l.Over? && l.status.Completed?) ==>
                  Occurs(trace, t, id) && c < t && trace[t].TranscriptTaken? && trace[t].gate.Clear())
  {
    b, c, t := 0, 0, 0;
    if trace == [] {
    } else {
      var n := |trace| - 1;
      b, c, t := LifePassed(trace[..n], id);
      if trace[n].id == id {
        match trace[n]
        case Began(_, _) => b := n;
        case CaptureTaken(_, _) => c := n;
        case TranscriptTaken(_, _) => t := n;
        case _ =>
      }
    }
  }

  /** A session that was answered has that answer as its end, unless the protocol was broken. */
  lemma {:induction false} AnsweredIsOver(trace: seq<Deed>, id: nat, status: Status)
    requires Answered(id, status) in trace && LifeOf(trace, id) != Broken
    ensures LifeOf(trace, id) == Over(status)
  {
    var n := |trace| - 1;
    assert trace == trace[..n] + [trace[n]];
    if trace[n] == Answered(id, status) {
    } else {
      AnsweredIsOver(trace[..n], id, status);
    }
  }

  /**
   * A session that was answered with a transcript passed a clear gate at its begin, after its
   * recording and after its transcription, in this order.
   */
  lemma CompletedPassedThreeGates(calls: seq<Call>, id: nat, transcript: Str) returns (b: nat, c: nat, t: nat)
    requires Answered(id, Completed(transcript)) in After(calls).trace
    ensures var trace := After(calls).trace;
            && b < c < t < |trace| && trace[b].Began? && trace[c].CaptureTaken? && trace[t].TranscriptTaken?
            && trace[b].id == trace[c].id == trace[t].id == id
            && trace[b].gate.Clear() && trace[c].gate.Clear() && trace[t].gate.Clear()
  {
    hide Step;
    SlotsConserved(calls);
    MatchesMeans(After(calls), id);
    AnsweredIsOver(After(calls).trace, id, Completed(transcript));
    b, c, t := LifePassed(After(calls).trace, id);
  }
}
