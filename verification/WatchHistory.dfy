/** The state and the verdicts of watched children read off the history of their events. */
module WatchHistory {
  import opened Text
  import opened Sequences
  import opened ProcessWatch

  // ---- timeouts ----

  /** Events behind which the timeout cannot fire any more. */
  predicate Disarms(role: Role, e: Event) {
    e.Timeout? || e.ProcessError? || (if role.Command? then e.Exited? else e.Closed?)
  }

  /** A timeout that comes before every event of this kind. */
  predicate FiresAt(role: Role, es: seq<Event>, j: int) {
    0 <= j < |es| && es[j].Timeout? && forall i | 0 <= i < j :: !Disarms(role, es[i])
  }

  lemma StepTimers(w: Watch, e: Event)
    ensures var t := Step(w, e);
            && t.role == w.role && (t.armed <==> w.armed && !Disarms(w.role, e))
            && (!w.role.Microphone? ==> (t.timedOut <==> w.timedOut || (w.armed && e.Timeout?)))
            && (!w.role.Microphone? ==> t.signals == w.signals + if e.Timeout? && w.armed then [Term] else if e.Grace? && w.graces > 0 then [Kill] else [])
            && (!w.role.Microphone? ==>
                  t.graces == if e.Timeout? && w.armed && !e.throws then w.graces + 1 else if e.Grace? && w.graces > 0 then w.graces - 1 else w.graces)
  {
    hide Feed, ValidPcm, Result;
    assert w.signals + [] == w.signals;
  }

  lemma FiresLater(role: Role, es: seq<Event>, e: Event)
    ensures (exists j :: FiresAt(role, es + [e], j)) <==>
              (exists j :: FiresAt(role, es, j)) || (e.Timeout? && forall i | 0 <= i < |es| :: !Disarms(role, es[i]))
  {
    hide Disarms;
    var all := es + [e];
    assert forall i | 0 <= i < |es| :: all[i] == es[i];
    assert all[|es|] == e;
    assert forall j | j < |es| :: FiresAt(role, all, j) <==> FiresAt(role, es, j);
    if e.Timeout? && forall i | 0 <= i < |es| :: !Disarms(role, es[i]) {
      assert FiresAt(role, all, |es|);
    }
  }

  /**
   * The timer runs exactly until the first timeout, process error, or end of the child; a command
   * or transcriber has timed out, and was sent SIGTERM, exactly when a timeout came first.
   */
  lemma {:induction false} TimersExactly(role: Role, es: seq<Event>)
    ensures var w := After(Start(role), es);
            && w.role == role && (w.armed <==> forall i | 0 <= i < |es| :: !Disarms(role, es[i]))
            && (!role.Microphone? ==> (w.timedOut <==> exists j :: FiresAt(role, es, j)))
            && (!role.Microphone? ==> (Term in w.signals <==> exists j :: FiresAt(role, es, j)))
    decreases |es|
  {
    hide Step, Disarms, FiresAt;
    if es == [] {
      NothingFires(role);
    } else {
      var front, e := es[..|es| - 1], es[|es| - 1];
      assert es == front + [e];
      TimersExactly(role, front);
      StepTimers(After(Start(role), front), e);
      FiresLater(role, front, e);
    }
  }

  lemma NothingFires(role: Role)
    ensures !exists j :: FiresAt(role, [], j)
  {
  }

  predicate GraceBehind(es: seq<Event>, j: int) { exists i | j < i < |es| :: i >= 0 && es[i] == Grace }

  lemma GraceLater(es: seq<Event>, e: Event, j: int)
    requires 0 <= j
    ensures GraceBehind(es + [e], j) <==> GraceBehind(es, j) || (j < |es| && e == Grace)
  {
    var all := es + [e];
    assert forall i | 0 <= i < |es| :: all[i] == es[i];
    if j < |es| && e == Grace {
      assert all[|es|] == Grace;
    }
  }

  /** One SIGKILL is due when a timeout fired without an exception, until the grace period ends. */
  lemma {:induction false} GraceExactly(role: Role, es: seq<Event>)
    requires !role.Microphone?
    ensures var w := After(Start(role), es);
            && (w.graces == if exists j :: FiresAt(role, es, j) && !es[j].throws && !GraceBehind(es, j) then 1 else 0)
            && (Kill in w.signals <==> exists j :: FiresAt(role, es, j) && !es[j].throws && GraceBehind(es, j))
    decreases |es|
  {
    hide Step, Disarms, FiresAt, GraceBehind;
    if es == [] {
      NothingFires(role);
      assert forall j :: !FiresAt(role, [], j);
    } else {
      var n := |es| - 1;
      var front, e := es[..n], es[n];
      assert es == front + [e];
      GraceExactly(role, front);
      TimersExactly(role, front);
      StepTimers(After(Start(role), front), e);
      forall j ensures FiresAt(role, es, j) ==> 0 <= j < |es| && es[j].Timeout? {
        FiresWhere(role, es, j);
      }
      forall j ensures FiresAt(role, front, j) ==> 0 <= j < n && front[j].Timeout? {
        FiresWhere(role, front, j);
      }
      forall j | j < n ensures FiresAt(role, es, j) <==> FiresAt(role, front, j) {
        FiresBefore(role, es, n, j);
      }
      FiresHere(role, es, n);
      FiresOnce(role, es);
      forall j | 0 <= j ensures GraceBehind(es, j) <==> GraceBehind(front, j) || (j < n && e == Grace) {
        GraceLater(front, e, j);
      }
      forall j | j >= n ensures !GraceBehind(front, j) {
        NoGraceBehind(front, j);
      }
      assert forall j | 0 <= j < n :: front[j] == es[j];
    }
  }

  lemma NoGraceBehind(es: seq<Event>, j: int)
    requires j >= |es|
    ensures !GraceBehind(es, j)
  {
  }

  lemma FiresWhere(role: Role, es: seq<Event>, j: int)
    ensures FiresAt(role, es, j) ==> 0 <= j < |es| && es[j].Timeout?
  {
  }

  lemma FiresOnce(role: Role, es: seq<Event>)
    ensures forall i, j :: FiresAt(role, es, i) && FiresAt(role, es, j) ==> i == j
  {
    forall i, j | FiresAt(role, es, i) && FiresAt(role, es, j) ensures i == j {
      assert Disarms(role, es[i]) && Disarms(role, es[j]);
    }
  }

  // ---- exits ----

  predicate LastExit(es: seq<Event>, j: int) {
    0 <= j < |es| && es[j].Exited? && forall i | j < i < |es| :: !es[i].Exited?
  }

  /** The recorded exit code is that of the last exit, for those who wait for the close. */
  lemma {:induction false} ExitExactly(role: Role, es: seq<Event>, code: Option<int>)
    requires !role.Command?
    ensures After(Start(role), es).exit == Some(code) <==> exists j :: LastExit(es, j) && es[j].code == code
    decreases |es|
  {
    hide Step;
    if es == [] {
    } else {
      var n := |es| - 1;
      ExitExactly(role, es[..n], code);
      TimersExactly(role, es[..n]);
      StepExit(After(Start(role), es[..n]), es[n]);
      assert forall j | 0 <= j < n :: es[..n][j] == es[j];
      if es[n].Exited? {
        assert LastExit(es, n);
      } else {
        assert forall j | j < n :: LastExit(es, j) <==> LastExit(es[..n], j);
      }
    }
  }

  lemma StepExit(w: Watch, e: Event)
    ensures Step(w, e).exit == if e.Exited? && !w.role.Command? then Some(e.code) else w.exit
  {
    hide Feed, CloseVerdict, Result;
  }

  // ---- verdicts ----

  /** A recording succeeds exactly when its streams close after a last exit with code 0 and what arrived is valid audio within the bound. */
  lemma RecordedExactly(es: seq<Event>, k: nat)
    requires FirstSettling(Start(Microphone), es, k)
    ensures var o := After(Start(Microphone), es).outcome;
            var pcm := Concat(ChunksOf(es[..k], Stdout));
            && o.Some?
            && (o.value.Recorded? <==>
                  && es[k] == Closed && pcm != [] && |pcm| % 2 == 0 && |pcm| <= 1048576
                  && exists j :: LastExit(es[..k], j) && es[..k][j].code == Some(0))
            && (o.value.Recorded? ==> o.value.pcm == pcm)
            && (o == Some(NotRecorded(Overdue)) <==> es[k].Timeout?)
  {
    hide Step, After, Verdict, Settles, ChunksOf, Concat;
    SettlesOnce(Microphone, es, [], k);
    var w := After(Start(Microphone), es[..k]);
    ReadersFollow(Microphone, es[..k]);
    ExitExactly(Microphone, es[..k], Some(0));
    MicrophoneVerdict(w, es[k]);
  }

  lemma MicrophoneVerdict(w: Watch, e: Event)
    requires w.role.Microphone? && Settles(w, e)
    ensures var v := Verdict(w, e);
            && v.Some?
            && (v.value.Recorded? <==> e == Closed && w.exit == Some(Some(0)) && !w.out.truncated && ValidPcm(w.out.kept))
            && (v.value.Recorded? ==> v.value.pcm == w.out.kept)
            && (v.value == NotRecorded(Overdue) <==> e.Timeout?)
  {
    hide ValidPcm;
  }

  /**
   * A command or a transcriber fails exactly when its first settling event is an error, a timeout
   * that throws, or a close without an exit; its result says timed out exactly when a timeout fired
   * by then, and has the code of the exit.
   */
  lemma FinishedExactly(role: Role, es: seq<Event>, k: nat)
    requires !role.Microphone? && FirstSettling(Start(role), es, k)
    ensures var o := After(Start(role), es).outcome;
            && o.Some? && o.value.Finished?
            && (o.value.timedOut <==> exists j | 0 <= j <= k :: FiresAt(role, es, j))
            && (o.value.failed <==> es[k].ProcessError? || es[k].Timeout? || (es[k].Closed? && forall j | 0 <= j < k :: !es[j].Exited?))
            && (o.value.failed ==> o.value.code.None?)
            && (role.Command? && es[k].Exited? ==> o.value.code == es[k].code)
            && (forall j | 0 <= j < k && LastExit(es[..k], j) && es[k].Closed? :: o.value.code == es[j].code)
  {
    hide Step, After, Verdict, Settles, FiresAt, Disarms;
    assert forall j | 0 <= j < k :: es[..k][j] == es[j];
    SettlesOnce(role, es, [], k);
    var w := After(Start(role), es[..k]);
    TimersExactly(role, es[..k]);
    SettlesHow(w, es[k]);
    FinishedVerdict(w, es[k]);
    forall j | j < k ensures FiresAt(role, es[..k], j) <==> FiresAt(role, es, j) {
      FiresBefore(role, es, k, j);
    }
    FiresHere(role, es, k);
    forall j ensures FiresAt(role, es[..k], j) ==> 0 <= j < k {
      FiresWhere(role, es[..k], j);
    }
    if !role.Command? {
      if w.exit.Some? {
        ExitExactly(role, es[..k], w.exit.value);
        var j :| LastExit(es[..k], j) && es[..k][j].code == w.exit.value;
        assert es[..k][j] == es[j];
        LastExitOnce(es[..k]);
      } else {
        NoExit(role, es[..k]);
      }
    }
  }

  lemma SettlesHow(w: Watch, e: Event)
    requires Settles(w, e) && !w.role.Microphone?
    ensures e.ProcessError? || (e.Timeout? && w.armed && e.throws) || (e.Exited? && w.role.Command?) || (e.Closed? && w.role.Transcriber?)
  {
  }

  lemma FinishedVerdict(w: Watch, e: Event)
    requires Settles(w, e) && !w.role.Microphone?
    ensures var v := Verdict(w, e);
            && v.Some? && v.value.Finished?
            && (v.value.timedOut <==> w.timedOut || e.Timeout?)
            && (v.value.failed <==> e.ProcessError? || e.Timeout? || (e.Closed? && w.exit.None?))
            && v.value.code == if v.value.failed then None else if e.Exited? then e.code else w.exit.value
  {
  }

  lemma FiresBefore(role: Role, es: seq<Event>, k: nat, j: int)
    requires j < k <= |es|
    ensures FiresAt(role, es[..k], j) <==> FiresAt(role, es, j)
  {
    hide Disarms;
    assert forall i | 0 <= i <= j :: es[..k][i] == es[i];
  }

  lemma FiresHere(role: Role, es: seq<Event>, k: nat)
    requires k < |es|
    ensures FiresAt(role, es, k) <==> es[k].Timeout? && forall i | 0 <= i < |es[..k]| :: !Disarms(role, es[..k][i])
  {
    hide Disarms;
    assert forall i | 0 <= i < k :: es[..k][i] == es[i];
  }

  lemma LastExitOnce(es: seq<Event>)
    ensures forall i, j :: LastExit(es, i) && LastExit(es, j) ==> i == j
  {
  }

  lemma {:induction false} NoExit(role: Role, es: seq<Event>)
    requires !role.Command? && After(Start(role), es).exit.None?
    ensures forall j | 0 <= j < |es| :: !es[j].Exited?
    decreases |es|
  {
    hide Step;
    if es == [] {
    } else {
      var n := |es| - 1;
      TimersExactly(role, es[..n]);
      StepExit(After(Start(role), es[..n]), es[n]);
      NoExit(role, es[..n]);
    }
  }
}
