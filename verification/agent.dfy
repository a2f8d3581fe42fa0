/** The test agent of utils/remoterun.py: it reports every script's progress
    to the daemon and insists on the matching acknowledgement, resending a
    report up to three times. The channel is abstracted to the sequence of
    replies it yields, one per send; a send that gets no reply leaves the
    agent blocked in its read. */
module Agent {
  import opened Wrappers
  import opened Errors
  import opened Text
  import opened Message
  import opened ResultMgr

  // ---------------------------------------------------------------------------
  // notify
  // ---------------------------------------------------------------------------

  const MaxRetries: nat := 3

  /** The reply the channel yields to the `k`-th send (counting from 0), or
      none when the daemon never answers it. No timeout is set on the
      channel, so a read with no reply to come blocks for ever. */
  function Received(responses: seq<string>, k: nat): Option<string> {
    if k < |responses| then Some(responses[k]) else None
  }

  /** How a `notify` call ends: the acknowledgement arrived, it raised, or
      it is stuck in a read that never returns. */
  datatype NotifyEnd = Acked | Raised(error: Error) | Blocked

  /** How many times `notify` sent the request, and how it ended. */
  datatype NotifyOutcome = NotifyOutcome(sends: nat, end: NotifyEnd)

  /** The retry loop of `notify` once `retries` resends have happened; the
      next read is the reply to send number `retries`. As written, the loop
      stops at the budget and the failure test looks only at the counter. */
  function NotifyFrom(req: string, ack: string, responses: seq<string>, retries: nat): (r: NotifyOutcome)
    requires retries <= MaxRetries
    ensures retries + 1 <= r.sends <= MaxRetries + 1
    ensures forall k :: retries <= k < r.sends - 1 ==> Received(responses, k).Some? && Received(responses, k) != Some(ack)
    ensures r.end.Acked? <==> exists k :: retries <= k < MaxRetries && Received(responses, k) == Some(ack)
    ensures r.end.Acked? ==> Received(responses, r.sends - 1) == Some(ack)
    ensures r.end.Blocked? <==> Received(responses, r.sends - 1).None?
    ensures r.end.Raised? ==>
              r.sends == MaxRetries + 1 && Received(responses, MaxRetries).Some? && r.end.error == SessionBroken(req)
    decreases MaxRetries - retries
  {
    match Received(responses, retries)
    case None => NotifyOutcome(retries + 1, Blocked)
    case Some(reply) =>
      if retries < MaxRetries && reply != ack then NotifyFrom(req, ack, responses, retries + 1)
      else if retries == MaxRetries then NotifyOutcome(retries + 1, Raised(SessionBroken(req)))
      else NotifyOutcome(retries + 1, Acked)
  }

  /** `EasytestAgent.notify(req, expect_resp)`: send, read a reply, and
      resend while the reply is not `expect_resp` and fewer than three resends
      happened; raise when the counter reached three. A read with no reply
      to come never returns. */
  function Notify(req: string, ack: string, responses: seq<string>): (r: NotifyOutcome)
    ensures 1 <= r.sends <= MaxRetries + 1
    ensures forall k :: 0 <= k < r.sends - 1 ==> Received(responses, k).Some? && Received(responses, k) != Some(ack)
    ensures r.end.Acked? <==> exists k :: 0 <= k < MaxRetries && Received(responses, k) == Some(ack)
    ensures r.end.Acked? ==> Received(responses, r.sends - 1) == Some(ack)
    ensures r.end.Blocked? <==> Received(responses, r.sends - 1).None?
    ensures r.end.Raised? ==>
              r.sends == MaxRetries + 1 && Received(responses, MaxRetries).Some? && r.end.error == SessionBroken(req)
  {
    NotifyFrom(req, ack, responses, 0)
  }

  /** A daemon that never answers: the request goes out once and `notify`
      waits for ever on the first read. */
  lemma NotifyUnanswered(req: string, ack: string)
    ensures Notify(req, ack, []) == NotifyOutcome(1, Blocked)
  {
    assert Received([], 0) == None;
  }

  /** `notify` raises only after four sends each of which got a reply: three
      wrong ones and a fourth that is not looked at. */
  lemma {:induction false} NotifyRaisesAnswered(req: string, ack: string, responses: seq<string>)
    ensures Notify(req, ack, responses).end.Raised? <==>
              |responses| > MaxRetries && forall k :: 0 <= k < MaxRetries ==> responses[k] != ack
  {
    var r := Notify(req, ack, responses);
    if |responses| > MaxRetries && forall k :: 0 <= k < MaxRetries ==> responses[k] != ack {
      assert forall k :: 0 <= k < MaxRetries ==> Received(responses, k) != Some(ack);
      assert !r.end.Blocked?;
    }
    if r.end.Raised? {
      forall k | 0 <= k < MaxRetries ensures responses[k] != ack {
        assert Received(responses, k).Some?;
      }
    }
  }

  /** If the first reply is the acknowledgement, `notify` sends once and
      does not raise. */
  lemma NotifyFirstReply(req: string, ack: string, responses: seq<string>)
    requires |responses| > 0 && responses[0] == ack
    ensures Notify(req, ack, responses) == NotifyOutcome(1, Acked)
  {
  }

  /** The loop `notify` evidently intends: a reply matching after the last
      resend is accepted too, so only a budget spent without any match
      raises. */
  function NotifyIntendedFrom(req: string, ack: string, responses: seq<string>, retries: nat): (r: NotifyOutcome)
    requires retries <= MaxRetries
    ensures retries + 1 <= r.sends <= MaxRetries + 1
    ensures forall k :: retries <= k < r.sends - 1 ==> Received(responses, k).Some? && Received(responses, k) != Some(ack)
    ensures r.end.Acked? <==> exists k :: retries <= k <= MaxRetries && Received(responses, k) == Some(ack)
    ensures r.end.Acked? ==> Received(responses, r.sends - 1) == Some(ack)
    ensures r.end.Blocked? <==> Received(responses, r.sends - 1).None?
    ensures r.end.Raised? ==>
              r.sends == MaxRetries + 1 && Received(responses, MaxRetries).Some?
              && Received(responses, MaxRetries) != Some(ack) && r.end.error == SessionBroken(req)
    decreases MaxRetries - retries
  {
    match Received(responses, retries)
    case None => NotifyOutcome(retries + 1, Blocked)
    case Some(reply) =>
      if retries < MaxRetries && reply != ack then NotifyIntendedFrom(req, ack, responses, retries + 1)
      else if reply != ack then NotifyOutcome(retries + 1, Raised(SessionBroken(req)))
      else NotifyOutcome(retries + 1, Acked)
  }

  /** `notify` with the intended failure test. */
  function NotifyIntended(req: string, ack: string, responses: seq<string>): (r: NotifyOutcome)
    ensures 1 <= r.sends <= MaxRetries + 1
    ensures forall k :: 0 <= k < r.sends - 1 ==> Received(responses, k).Some? && Received(responses, k) != Some(ack)
    ensures r.end.Acked? <==> exists k :: 0 <= k <= MaxRetries && Received(responses, k) == Some(ack)
    ensures r.end.Acked? ==> Received(responses, r.sends - 1) == Some(ack)
    ensures r.end.Blocked? <==> Received(responses, r.sends - 1).None?
    ensures r.end.Raised? ==>
              r.sends == MaxRetries + 1 && Received(responses, MaxRetries).Some?
              && Received(responses, MaxRetries) != Some(ack) && r.end.error == SessionBroken(req)
  {
    NotifyIntendedFrom(req, ack, responses, 0)
  }

  /** The two loops agree except when the only matching reply is the one to
      the last resend. */
  lemma {:induction false} NotifyAgrees(req: string, ack: string, responses: seq<string>)
    ensures Notify(req, ack, responses).sends == NotifyIntended(req, ack, responses).sends
    ensures Notify(req, ack, responses) != NotifyIntended(req, ack, responses) <==>
              (forall k :: 0 <= k < MaxRetries ==> Received(responses, k) != Some(ack))
              && Received(responses, MaxRetries) == Some(ack)
  {
    var a, b := Notify(req, ack, responses), NotifyIntended(req, ack, responses);
    if exists k :: 0 <= k < MaxRetries && Received(responses, k) == Some(ack) {
      var k :| 0 <= k < MaxRetries && Received(responses, k) == Some(ack);
      assert a.sends - 1 <= k && b.sends - 1 <= k;
      assert a.sends == b.sends;
    } else if a.end.Blocked? || b.end.Blocked? {
      assert a.sends == b.sends;
    }
  }

  /** The discrepancy: three wrong replies followed by the acknowledgement.
      As written the request is sent four times and `notify` still raises;
      the intended loop accepts the fourth reply. */
  lemma LastRetryIgnored(req: string, ack: string, wrong: string)
    requires wrong != ack
    ensures Notify(req, ack, [wrong, wrong, wrong, ack]) == NotifyOutcome(4, Raised(SessionBroken(req)))
    ensures NotifyIntended(req, ack, [wrong, wrong, wrong, ack]) == NotifyOutcome(4, Acked)
  {
    var rs := [wrong, wrong, wrong, ack];
    assert Received(rs, 0) != Some(ack) && Received(rs, 1) != Some(ack) && Received(rs, 2) != Some(ack);
    assert Received(rs, 3) == Some(ack);
  }

  // ---------------------------------------------------------------------------
  // Reports
  // ---------------------------------------------------------------------------

  /** How a status reaches `build_msg` as written: the enum member itself,
      which `'{}'.format` renders as `TestResult.<NAME>`. */
  function RenderAsWritten(r: TestResult): string {
    "TestResult." + Name(r)
  }

  /** How a status evidently should travel: as the member's value. */
  function Render(r: TestResult): string {
    Value(r)
  }

  /** The intended rendering is read back by `TestResult(status)` on the
      daemon. */
  lemma RenderRoundTrip(r: TestResult)
    ensures FromValue(Render(r)) == Some(r)
  {
    FromValueOfValue(r);
  }

  /** The as-written rendering is no member's value, so the daemon rejects
      every report it produces. */
  lemma RenderAsWrittenIllegal(r: TestResult)
    ensures FromValue(RenderAsWritten(r)) == None
  {
    var s := RenderAsWritten(r);
    assert s[0] == 'T' && s[1] == 'e';
    assert |s| >= 8 && s[4] == 'R';
  }

  /** A report ready to send: the message, its frame, and the frame of the
      acknowledgement `notify` waits for. */
  datatype Report = Report(msg: SyncMsg, request: string, ack: string)

  /** The report for `script` with rendered status `status`, under a freshly
      minted id; returns the report and the id counter after minting. */
  function NewReport(g: IdGen, draw: nat, script: string, status: string): (r: (Report, IdGen))
    requires g.Seeded? || MinSeed <= draw <= MaxSeed
    ensures r.0.request == SyncVal(r.0.msg) && r.0.ack == AckVal(r.0.msg.msgid)
    ensures r.0.msg.script == script && r.0.msg.status == status && !r.0.msg.finalMsg
    ensures r.1.Seeded? && r.0.msg.msgid == Dec(r.1.last)
    ensures g.Seeded? ==> r.1.last == g.last + 1
  {
    var (id, g') := NextId(g, draw);
    var m := NewSyncMsg(id, script, status);
    (Report(m, SyncVal(m), AckVal(m.msgid)), g')
  }

  /** `update_test_progress(script, status)`, with the intended rendering. */
  function UpdateTestProgress(g: IdGen, draw: nat, script: string, status: TestResult): (r: (Report, IdGen))
    requires g.Seeded? || MinSeed <= draw <= MaxSeed
    ensures r.0.msg.script == script && FromValue(r.0.msg.status) == Some(status)
    ensures r.0.request == SyncVal(r.0.msg) && r.0.ack == AckVal(r.0.msg.msgid)
  {
    RenderRoundTrip(status);
    NewReport(g, draw, script, Render(status))
  }

  /** `update_test_progress(script, status)` as written: the status renders
      as `TestResult.<NAME>`, which is no member's value. */
  function UpdateTestProgressAsWritten(g: IdGen, draw: nat, script: string, status: TestResult): (r: (Report, IdGen))
    requires g.Seeded? || MinSeed <= draw <= MaxSeed
    ensures r.0.msg.script == script && FromValue(r.0.msg.status) == None
    ensures r.0.request == SyncVal(r.0.msg) && r.0.ack == AckVal(r.0.msg.msgid)
  {
    RenderAsWrittenIllegal(status);
    NewReport(g, draw, script, RenderAsWritten(status))
  }

  /** `notify_test_done`: the completion report, script `all` with status
      FINISHED, with the intended rendering. */
  function NotifyTestDone(g: IdGen, draw: nat): (r: (Report, IdGen))
    requires g.Seeded? || MinSeed <= draw <= MaxSeed
    ensures IsSentinel(r.0.msg.script, r.0.msg.status)
    ensures r.0.request == SyncVal(r.0.msg) && r.0.ack == AckVal(r.0.msg.msgid)
  {
    NewReport(g, draw, SentinelScript, Render(Finished))
  }

  /** `notify_test_done` as written: its status renders as
      `TestResult.FINISHED`, which is not the sentinel. */
  function NotifyTestDoneAsWritten(g: IdGen, draw: nat): (r: (Report, IdGen))
    requires g.Seeded? || MinSeed <= draw <= MaxSeed
    ensures !IsSentinel(r.0.msg.script, r.0.msg.status)
    ensures FromValue(r.0.msg.status) == None
  {
    RenderAsWrittenIllegal(Finished);
    NewReport(g, draw, SentinelScript, RenderAsWritten(Finished))
  }

  // ---------------------------------------------------------------------------
  // get_args and the main loop
  // ---------------------------------------------------------------------------

  /** Whether `--server` was given a non-empty value (Python truthiness). */
  predicate ServerGiven(server: Option<string>) {
    server.Some? && |server.value| > 0
  }

  /** The check at the end of `get_args`: `--sync` and `--server` must be
      used together, otherwise the program exits. */
  function CheckSyncArgs(sync: bool, server: Option<string>): (r: Outcome<Error>)
    ensures r.Pass? <==> (sync <==> ServerGiven(server))
    ensures r.Fail? ==> r.error == UsageExit
  {
    if (!sync && ServerGiven(server)) || (sync && !ServerGiven(server)) then Fail(UsageExit) else Pass
  }

  /** The reports of the `__main__` loop with `--sync`, as (script, status)
      pairs: each script RUNNING, then FINISHED or FAILED by whether it ran
      cleanly, then the completion report. `runs` pairs every script found
      with whether running it succeeded. */
  function MainLoopReports(runs: seq<(string, bool)>): (r: seq<(string, TestResult)>)
    ensures |r| == 2 * |runs| + 1
    ensures forall i :: 0 <= i < |runs| ==> r[2 * i] == (runs[i].0, Running)
    ensures forall i :: 0 <= i < |runs| ==> r[2 * i + 1] == (runs[i].0, if runs[i].1 then Finished else Failed)
    ensures r[|r| - 1] == (SentinelScript, Finished)
    decreases |runs|
  {
    if |runs| == 0 then [(SentinelScript, Finished)]
    else
      var rest := MainLoopReports(runs[1..]);
      assert forall i :: 1 <= i < |runs| ==> runs[i] == runs[1..][i - 1];
      [(runs[0].0, Running), (runs[0].0, if runs[0].1 then Finished else Failed)] + rest
  }

  /** Only the last report of the main loop is the completion report, as
      long as no script is itself named `all`. */
  lemma MainLoopSentinelLast(runs: seq<(string, bool)>, i: nat)
    requires forall j :: 0 <= j < |runs| ==> runs[j].0 != SentinelScript
    requires i < |MainLoopReports(runs)| - 1
    ensures MainLoopReports(runs)[i].0 != SentinelScript
  {
    var r := MainLoopReports(runs);
    var j := i / 2;
    assert j < |runs|;
    if i == 2 * j {
      assert r[2 * j].0 == runs[j].0;
    } else {
      assert i == 2 * j + 1 && r[2 * j + 1].0 == runs[j].0;
    }
  }

  /** Sending `reports` one after another, the `i`-th `notify` ending as
      `ends[i]`: the loop goes on only past an acknowledged report, since a
      raise leaves the loop and a blocked read never returns. Gives the
      reports sent and how the run ends (`Acked` when every report was
      acknowledged). */
  function RunReports(reports: seq<(string, TestResult)>, ends: seq<NotifyEnd>): (r: (seq<(string, TestResult)>, NotifyEnd))
    requires |ends| >= |reports|
    ensures |r.0| <= |reports| && r.0 == reports[..|r.0|]
    ensures r.1.Acked? <==> forall i :: 0 <= i < |reports| ==> ends[i].Acked?
    ensures r.1.Acked? ==> r.0 == reports
    ensures !r.1.Acked? ==> 0 < |r.0| && ends[|r.0| - 1] == r.1 && forall i :: 0 <= i < |r.0| - 1 ==> ends[i].Acked?
    decreases |reports|
  {
    if |reports| == 0 then ([], Acked)
    else if !ends[0].Acked? then ([reports[0]], ends[0])
    else
      var rest := RunReports(reports[1..], ends[1..]);
      assert forall i :: 1 <= i < |reports| ==> ends[i] == ends[1..][i - 1];
      assert reports[..|rest.0| + 1] == [reports[0]] + reports[1..][..|rest.0|];
      ([reports[0]] + rest.0, rest.1)
  }

  /** The `--sync` main loop when the `notify` of its `i`-th report ends as
      `ends[i]`. */
  function MainLoop(runs: seq<(string, bool)>, ends: seq<NotifyEnd>): (r: (seq<(string, TestResult)>, NotifyEnd))
    requires |ends| > 2 * |runs|
    ensures |r.0| <= 2 * |runs| + 1 && r.0 == MainLoopReports(runs)[..|r.0|]
  {
    RunReports(MainLoopReports(runs), ends)
  }

  /** The completion report goes out exactly when every report before it was
      acknowledged; otherwise the run stops at the first report that was
      not, and no later script is reported. */
  lemma {:induction false} MainLoopCompletion(runs: seq<(string, bool)>, ends: seq<NotifyEnd>)
    requires |ends| > 2 * |runs|
    requires forall j :: 0 <= j < |runs| ==> runs[j].0 != SentinelScript
    ensures var sent := MainLoop(runs, ends).0;
            (exists i :: 0 <= i < |sent| && sent[i].0 == SentinelScript)
            <==> forall j :: 0 <= j < 2 * |runs| ==> ends[j].Acked?
  {
    var reports := MainLoopReports(runs);
    var (sent, end) := MainLoop(runs, ends);
    if forall j :: 0 <= j < 2 * |runs| ==> ends[j].Acked? {
      if !end.Acked? {
        assert |sent| - 1 >= 2 * |runs|;
      }
      assert |sent| == |reports|;
      assert sent[|sent| - 1].0 == SentinelScript;
    }
    if exists i :: 0 <= i < |sent| && sent[i].0 == SentinelScript {
      var i :| 0 <= i < |sent| && sent[i].0 == SentinelScript;
      if i < |reports| - 1 {
        MainLoopSentinelLast(runs, i);
      }
      assert |sent| == |reports|;
    }
  }
}
