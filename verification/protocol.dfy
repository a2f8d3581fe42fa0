/** The agent and the daemon together: a report built by the agent is
    decoded by the daemon, recorded in its result table and answered with
    exactly the acknowledgement the agent waits for, with the status sent as
    the member's value. Also how the as-written rendering of the status
    breaks this exchange. */
module Protocol {
  import opened Wrappers
  import opened Errors
  import opened Text
  import opened Message
  import opened ResultMgr
  import opened Agent
  import opened Ssh

  /** Status values travel as single words. */
  lemma ValueIsAtom(r: TestResult)
    ensures Atom(Value(r))
  {
  }

  /** A progress report for a script the daemon tracks is recorded, clears
      `tests_done`, and is answered with the acknowledgement the agent
      expects, which the agent accepts at the first reply. */
  lemma ReportAccepted(t: Tracker, g: IdGen, draw: nat, script: string, status: TestResult)
    requires g.Seeded? || MinSeed <= draw <= MaxSeed
    requires Atom(script) && script != SentinelScript && script in t.results
    ensures var rep := UpdateTestProgress(g, draw, script, status).0;
            && SyncResult(t, rep.request).Success?
            && SyncResult(t, rep.request).value.1 == rep.ack
            && SyncResult(t, rep.request).value.0.results == t.results[script := Member(status)]
            && !SyncResult(t, rep.request).value.0.testsDone
            && Notify(rep.request, rep.ack, [SyncResult(t, rep.request).value.1]) == NotifyOutcome(1, Acked)
  {
    var rep := UpdateTestProgress(g, draw, script, status).0;
    var m := rep.msg;
    DecIsAtom(NextId(g, draw).0);
    ValueIsAtom(status);
    RenderRoundTrip(status);
    SyncRoundTrip(m);
    assert m.(finalMsg := IsSentinel(m.script, m.status)) == m;
    assert FromMsg(rep.request) == Success(m);
  }

  /** The completion report with the intended rendering is recognised: the
      table is untouched, `tests_done` is set, and the reply is the expected
      acknowledgement. */
  lemma CompletionAccepted(t: Tracker, g: IdGen, draw: nat)
    requires g.Seeded? || MinSeed <= draw <= MaxSeed
    ensures var rep := NotifyTestDone(g, draw).0;
            && SyncResult(t, rep.request) == Success((t.(testsDone := true), rep.ack))
  {
    var rep := NotifyTestDone(g, draw).0;
    var m := rep.msg;
    DecIsAtom(NextId(g, draw).0);
    SyncRoundTrip(m);
    assert FromMsg(rep.request) == Success(m.(finalMsg := true));
  }

  /** As written, the completion report carries `TestResult.FINISHED`: the
      daemon does not see the sentinel, tries to record the status and
      raises. The exception ends the daemon's pass before any reply is sent
      (and, uncaught, the dispatch thread with it), so the agent's first read
      never returns. */
  lemma CompletionRejectedAsWritten(t: Tracker, g: IdGen, draw: nat, transport: nat)
    requires g.Seeded? || MinSeed <= draw <= MaxSeed
    requires |NotifyTestDoneAsWritten(g, draw).0.request| <= MaxMsgSize
    ensures var rep := NotifyTestDoneAsWritten(g, draw).0;
            var reg := [Slot(transport, true, Some(Channel(rep.request, true, [])))];
            && SyncResult(t, rep.request) == Failure(IllegalResult(SentinelScript, RenderAsWritten(Finished)))
            && DispatchPass(reg, t, SyncResult)
               == PassResult([Slot(transport, true, Some(Channel([], true, [])))], t, [(transport, rep.request)], false,
                             Some(IllegalResult(SentinelScript, RenderAsWritten(Finished))))
            && Notify(rep.request, rep.ack, []) == NotifyOutcome(1, Blocked)
  {
    var rep := NotifyTestDoneAsWritten(g, draw).0;
    CompletionAsWrittenDecodes(g, draw);
    assert |rep.request| > 0 by { BuildMsgNonEmpty(rep.msg); }
    PassOneMessageRaises(transport, rep.request, [], t, SyncResult);
    NotifyUnanswered(rep.request, rep.ack);
  }

  /** As written, a progress report carries `TestResult.<NAME>`, so the
      daemon raises on the very first report of a run, for a script it
      tracks or not: the pass ends before any reply and the agent's first
      read never returns. */
  lemma ReportRejectedAsWritten(t: Tracker, g: IdGen, draw: nat, script: string, status: TestResult, transport: nat)
    requires g.Seeded? || MinSeed <= draw <= MaxSeed
    requires Atom(script) && script != SentinelScript
    requires |UpdateTestProgressAsWritten(g, draw, script, status).0.request| <= MaxMsgSize
    ensures var rep := UpdateTestProgressAsWritten(g, draw, script, status).0;
            var reg := [Slot(transport, true, Some(Channel(rep.request, true, [])))];
            && SyncResult(t, rep.request) == Failure(IllegalResult(script, RenderAsWritten(status)))
            && DispatchPass(reg, t, SyncResult)
               == PassResult([Slot(transport, true, Some(Channel([], true, [])))], t, [(transport, rep.request)], false,
                             Some(IllegalResult(script, RenderAsWritten(status))))
            && Notify(rep.request, rep.ack, []) == NotifyOutcome(1, Blocked)
  {
    var rep := UpdateTestProgressAsWritten(g, draw, script, status).0;
    AsWrittenReportRaises(t, g, draw, script, status);
    assert |rep.request| > 0 by { BuildMsgNonEmpty(rep.msg); }
    PassOneMessageRaises(transport, rep.request, [], t, SyncResult);
    NotifyUnanswered(rep.request, rep.ack);
  }

  lemma AsWrittenReportRaises(t: Tracker, g: IdGen, draw: nat, script: string, status: TestResult)
    requires g.Seeded? || MinSeed <= draw <= MaxSeed
    requires Atom(script) && script != SentinelScript
    ensures var rep := UpdateTestProgressAsWritten(g, draw, script, status).0;
            SyncResult(t, rep.request) == Failure(IllegalResult(script, RenderAsWritten(status)))
  {
    var rep := UpdateTestProgressAsWritten(g, draw, script, status).0;
    var m := rep.msg;
    AsWrittenReportDecodes(g, draw, script, status);
    assert Update(t, script, m.status) == Failure(IllegalResult(script, m.status));
  }

  lemma AsWrittenReportDecodes(g: IdGen, draw: nat, script: string, status: TestResult)
    requires g.Seeded? || MinSeed <= draw <= MaxSeed
    requires Atom(script) && script != SentinelScript
    ensures var rep := UpdateTestProgressAsWritten(g, draw, script, status).0;
            && FromMsg(rep.request) == Success(rep.msg)
            && !rep.msg.finalMsg && rep.msg.script == script && rep.msg.status == RenderAsWritten(status)
  {
    var rep := UpdateTestProgressAsWritten(g, draw, script, status).0;
    var m := rep.msg;
    DecIsAtom(NextId(g, draw).0);
    RenderAsWrittenAtom(status);
    SyncRoundTrip(m);
    assert m.(finalMsg := IsSentinel(m.script, m.status)) == m;
  }

  /** The daemon decodes the as-written completion report to the message
      the agent built. */
  lemma CompletionAsWrittenDecodes(g: IdGen, draw: nat)
    requires g.Seeded? || MinSeed <= draw <= MaxSeed
    ensures var rep := NotifyTestDoneAsWritten(g, draw).0;
            FromMsg(rep.request) == Success(rep.msg)
  {
    var m := NotifyTestDoneAsWritten(g, draw).0.msg;
    DecIsAtom(NextId(g, draw).0);
    RenderAsWrittenAtom(Finished);
    SyncRoundTrip(m);
  }

  lemma RenderAsWrittenAtom(r: TestResult)
    ensures Atom(RenderAsWritten(r))
  {
  }

  /** The daemon serving one agent channel that holds a report: the pass
      delivers the report, records it, and sends the expected
      acknowledgement back on that channel. */
  lemma DaemonAnswersReport(t: Tracker, g: IdGen, draw: nat, script: string, status: TestResult, transport: nat)
    requires g.Seeded? || MinSeed <= draw <= MaxSeed
    requires Atom(script) && script != SentinelScript && script in t.results
    requires |UpdateTestProgress(g, draw, script, status).0.request| <= MaxMsgSize
    ensures var rep := UpdateTestProgress(g, draw, script, status).0;
            var reg := [Slot(transport, true, Some(Channel(rep.request, true, [])))];
            && DispatchPass(reg, t, SyncResult).raised.None?
            && DispatchPass(reg, t, SyncResult).delivered == [(transport, rep.request)]
            && DispatchPass(reg, t, SyncResult).state.results == t.results[script := Member(status)]
            && DispatchPass(reg, t, SyncResult).reg == [Slot(transport, true, Some(Channel([], true, [rep.ack])))]
  {
    var rep := UpdateTestProgress(g, draw, script, status).0;
    var res := SyncResult(t, rep.request);
    assert res.Success? && res.value.1 == rep.ack && res.value.0.results == t.results[script := Member(status)] by {
      ReportAccepted(t, g, draw, script, status);
    }
    assert |rep.request| > 0 by { BuildMsgNonEmpty(rep.msg); }
    PassOneMessage(transport, rep.request, [], t, SyncResult);
    var sent: seq<string> := [];
    assert sent + [res.value.1] == [rep.ack];
  }

  lemma BuildMsgNonEmpty(m: SyncMsg)
    ensures |SyncVal(m)| > 0
  {
  }
}
