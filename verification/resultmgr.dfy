/** The daemon's result table: `ResultMgr` keeps one entry per test script,
    updates it from the agents' progress reports, acknowledges every report
    and counts the outcomes for the final summary line. */
module ResultMgr {
  import opened Wrappers
  import opened Errors
  import opened Text
  import opened Message
  import opened Testset

  // ---------------------------------------------------------------------------
  // TestResult
  // ---------------------------------------------------------------------------

  datatype TestResult = Aborted | Failed | Finished | NotRun | Running | Skipped

  /** The enum member's value, the text that travels in a report. */
  function Value(r: TestResult): string {
    match r
    case Aborted => "Aborted"
    case Failed => "Failed"
    case Finished => "Finished"
    case NotRun => "NotRun"
    case Running => "Running"
    case Skipped => "Skipped"
  }

  /** The enum member's name. */
  function Name(r: TestResult): string {
    match r
    case Aborted => "ABORTED"
    case Failed => "FAILED"
    case Finished => "FINISHED"
    case NotRun => "NOTRUN"
    case Running => "RUNNING"
    case Skipped => "SKIPPED"
  }

  /** `TestResult(status)`: the member whose value is `status`, if any. */
  function FromValue(s: string): (r: Option<TestResult>)
    ensures r.Some? ==> Value(r.value) == s
    ensures r.None? ==> forall t: TestResult :: Value(t) != s
  {
    if s == "Aborted" then Some(Aborted)
    else if s == "Failed" then Some(Failed)
    else if s == "Finished" then Some(Finished)
    else if s == "NotRun" then Some(NotRun)
    else if s == "Running" then Some(Running)
    else if s == "Skipped" then Some(Skipped)
    else None
  }

  /** Looking a value up gives its member back: values are distinct. */
  lemma FromValueOfValue(t: TestResult)
    ensures FromValue(Value(t)) == Some(t)
  {
  }

  // ---------------------------------------------------------------------------
  // The table
  // ---------------------------------------------------------------------------

  /** A table value. `__init__` stores each testcase's `result` attribute,
      the plain string `'NotRun'`; `update` stores enum members. The two are
      never equal in Python, so they are kept apart here. */
  datatype Entry = Raw(text: string) | Member(result: TestResult)

  datatype Tracker = Tracker(results: map<string, Entry>, testsDone: bool)

  /** The table `__init__` builds: one entry per script, a later testcase
      with the same script overwriting an earlier one. */
  function InitResults(tcs: seq<Testcase>): (m: map<string, Entry>)
    ensures forall i :: 0 <= i < |tcs| ==> tcs[i].script in m
    ensures forall k :: k in m ==> exists i :: 0 <= i < |tcs| && tcs[i].script == k
    ensures forall k :: k in m ==> m[k].Raw?
    decreases |tcs|
  {
    if |tcs| == 0 then map[]
    else
      var last := tcs[|tcs| - 1];
      var m0 := InitResults(tcs[..|tcs| - 1]);
      assert forall i :: 0 <= i < |tcs| - 1 ==> tcs[i] == tcs[..|tcs| - 1][i];
      m0[last.script := Raw(last.result)]
  }

  /** The entry of a script is the result of the LAST testcase naming it. */
  lemma {:induction false} InitResultsLastWins(tcs: seq<Testcase>, i: nat)
    requires i < |tcs|
    requires forall j :: i < j < |tcs| ==> tcs[j].script != tcs[i].script
    ensures InitResults(tcs)[tcs[i].script] == Raw(tcs[i].result)
    decreases |tcs|
  {
    if i < |tcs| - 1 {
      var front := tcs[..|tcs| - 1];
      assert front[i] == tcs[i];
      forall j | i < j < |front| ensures front[j].script != front[i].script {
        assert front[j] == tcs[j];
      }
      InitResultsLastWins(front, i);
    }
  }

  /** `ResultMgr(testcases, ...)`: the table, and `tests_done` cleared. */
  function Init(tcs: seq<Testcase>): (t: Tracker)
    ensures !t.testsDone
    ensures forall k :: k in t.results <==> exists i :: 0 <= i < |tcs| && tcs[i].script == k
  {
    Tracker(InitResults(tcs), false)
  }

  /** A fresh tracker counts each distinct script once. */
  lemma InitTotal(tcs: seq<Testcase>)
    ensures Total(Init(tcs)) == |set i | 0 <= i < |tcs| :: tcs[i].script|
  {
    var scripts := set i | 0 <= i < |tcs| :: tcs[i].script;
    assert Init(tcs).results.Keys == scripts;
  }

  /** `ResultMgr.update`: an unknown status is an error; a known status is
      stored for a script the table holds, and a script it does not hold is
      ignored. */
  function Update(t: Tracker, script: string, status: string): (r: Result<Tracker, Error>)
    ensures r.Failure? <==> FromValue(status).None?
    ensures r.Failure? ==> r.error == IllegalResult(script, status)
    ensures r.Success? ==> r.value.testsDone == t.testsDone && r.value.results.Keys == t.results.Keys
    ensures r.Success? && script in t.results ==>
              r.value.results[script].Member? && Value(r.value.results[script].result) == status
    ensures r.Success? ==> forall k :: k in t.results && k != script ==> r.value.results[k] == t.results[k]
    ensures script !in t.results && r.Success? ==> r.value == t
  {
    match FromValue(status)
    case None => Failure(IllegalResult(script, status))
    case Some(res) =>
      if script in t.results then Success(t.(results := t.results[script := Member(res)]))
      else Success(t)
  }

  /** Applying the same report twice is the same as applying it once. */
  lemma UpdateIdempotent(t: Tracker, script: string, status: string)
    requires Update(t, script, status).Success?
    ensures Update(Update(t, script, status).value, script, status) == Update(t, script, status)
  {
    if script in t.results {
      var e := Member(FromValue(status).value);
      assert t.results[script := e][script := e] == t.results[script := e];
    }
  }

  /** Of two reports for one script, the later one wins. */
  lemma UpdateLastWins(t: Tracker, script: string, first: string, second: string)
    requires Update(t, script, first).Success?
    ensures Update(Update(t, script, first).value, script, second) == Update(t, script, second)
  {
    if script in t.results && FromValue(second).Some? {
      var m := t.results;
      assert m[script := Member(FromValue(first).value)][script := Member(FromValue(second).value)]
          == m[script := Member(FromValue(second).value)];
    }
  }

  /** Reports for two different scripts commute. */
  lemma UpdateCommutes(t: Tracker, s1: string, v1: string, s2: string, v2: string)
    requires s1 != s2
    requires Update(t, s1, v1).Success? && Update(t, s2, v2).Success?
    ensures Update(Update(t, s1, v1).value, s2, v2) == Update(Update(t, s2, v2).value, s1, v1)
  {
    var m := t.results;
    var e1 := Member(FromValue(v1).value);
    var e2 := Member(FromValue(v2).value);
    if s1 in m && s2 in m {
      assert m[s1 := e1][s2 := e2] == m[s2 := e2][s1 := e1];
    }
  }

  // ---------------------------------------------------------------------------
  // sync_result
  // ---------------------------------------------------------------------------

  /** `ResultMgr.sync_result`: decodes a report; the sentinel only sets
      `tests_done`, any other report updates the table and clears it. The
      reply is the acknowledgement of the report's id. A decoding error or an
      illegal status raises before the reply is sent and leaves the tracker
      as it was. Returns the new tracker and the reply frame. */
  function SyncResult(t: Tracker, msg: string): (r: Result<(Tracker, string), Error>)
    ensures FromMsg(msg).Failure? ==> r == Failure(FromMsg(msg).error)
    ensures r.Success? ==> FromMsg(msg).Success? && r.value.1 == AckVal(FromMsg(msg).value.msgid)
    ensures r.Success? ==> r.value.0.testsDone == FromMsg(msg).value.finalMsg
    ensures r.Success? && FromMsg(msg).value.finalMsg ==> r.value.0.results == t.results
    ensures FromMsg(msg).Success? && !FromMsg(msg).value.finalMsg ==>
              var sync := FromMsg(msg).value;
              && (r.Success? <==> FromValue(sync.status).Some?)
              && (r.Success? ==> r.value.0.results == Update(t, sync.script, sync.status).value.results)
  {
    var sync :- FromMsg(msg);
    if sync.finalMsg then
      Success((t.(testsDone := true), AckVal(sync.msgid)))
    else
      var t' :- Update(t, sync.script, sync.status);
      Success((t'.(testsDone := false), AckVal(sync.msgid)))
  }

  // ---------------------------------------------------------------------------
  // Counting
  // ---------------------------------------------------------------------------

  /** The comparison `count` performs as written: `v == status`, true only
      for an enum member. */
  predicate MatchesAsWritten(e: Entry, r: TestResult) {
    e == Member(r)
  }

  /** The comparison `count` evidently intends: a stored member, or the
      initial string equal to the member's value. */
  predicate Matches(e: Entry, r: TestResult) {
    e == Member(r) || e == Raw(Value(r))
  }

  /** The scripts whose entry counts as `r`. */
  function ScriptsWith(m: map<string, Entry>, r: TestResult): set<string> {
    set k | k in m && Matches(m[k], r)
  }

  /** `ResultMgr.count` as written. It never counts more than the intended
      comparison does. */
  function CountAsWritten(t: Tracker, r: TestResult): (n: nat)
    ensures n == 0 <==> forall k :: k in t.results ==> t.results[k] != Member(r)
    ensures n <= Count(t, r)
  {
    var written := set k | k in t.results && MatchesAsWritten(t.results[k], r);
    SubsetCard(written, ScriptsWith(t.results, r));
    assert (exists k :: k in t.results && t.results[k] == Member(r)) ==> written != {} by {
      if exists k :: k in t.results && t.results[k] == Member(r) {
        var k :| k in t.results && t.results[k] == Member(r);
        assert k in written;
      }
    }
    |written|
  }

  /** On a table holding only enum members, which is what `update` stores,
      the as-written count is the intended one. */
  lemma CountAsWrittenAgrees(t: Tracker, r: TestResult)
    requires forall k :: k in t.results ==> t.results[k].Member?
    ensures CountAsWritten(t, r) == Count(t, r)
  {
    assert (set k | k in t.results && MatchesAsWritten(t.results[k], r)) == ScriptsWith(t.results, r);
  }

  /** `ResultMgr.count`, with the comparison it evidently intends: zero
      exactly when no entry holds the member or its value. */
  function Count(t: Tracker, r: TestResult): (n: nat)
    ensures n == 0 <==> forall k :: k in t.results ==> !Matches(t.results[k], r)
  {
    var s := ScriptsWith(t.results, r);
    assert (exists k :: k in t.results && Matches(t.results[k], r)) ==> s != {} by {
      if exists k :: k in t.results && Matches(t.results[k], r) {
        var k :| k in t.results && Matches(t.results[k], r);
        assert k in s;
      }
    }
    |s|
  }

  /** `ResultMgr.total`: zero exactly for an empty table. */
  function Total(t: Tracker): (n: nat)
    ensures n == 0 <==> t.results == map[]
  {
    assert t.results != map[] ==> exists k :: k in t.results;
    |t.results|
  }

  /** No count exceeds the total. */
  lemma CountBounded(t: Tracker, r: TestResult)
    ensures Count(t, r) <= Total(t)
  {
    assert ScriptsWith(t.results, r) <= t.results.Keys;
    SubsetCard(ScriptsWith(t.results, r), t.results.Keys);
  }

  lemma {:induction false} SubsetCard(a: set<string>, b: set<string>)
    requires a <= b
    ensures |a| <= |b|
  {
    assert b == a + (b - a);
  }

  /** Storing `e` at a script the table holds moves that script from the
      count of its old entry to the count of `e`. */
  lemma ScriptsWithStore(m: map<string, Entry>, s: string, e: Entry, r: TestResult)
    requires s in m
    ensures |ScriptsWith(m[s := e], r)|
            == |ScriptsWith(m, r)| - (if Matches(m[s], r) then 1 else 0) + (if Matches(e, r) then 1 else 0)
  {
    var a := ScriptsWith(m, r);
    var a' := ScriptsWith(m[s := e], r);
    assert s in a <==> Matches(m[s], r);
    assert s in a' <==> Matches(e, r);
    assert a' - {s} == a - {s} by {
      forall k ensures k in a' - {s} <==> k in a - {s} {
        if k != s && k in m { assert m[s := e][k] == m[k]; }
      }
    }
    RemoveOne(a, s);
    RemoveOne(a', s);
  }

  /** Removing an element shrinks a set by one exactly when it was there. */
  lemma RemoveOne(a: set<string>, s: string)
    ensures |a| == |a - {s}| + (if s in a then 1 else 0)
  {
    if s in a {
      assert a == (a - {s}) + {s};
    } else {
      assert a == a - {s};
    }
  }

  /** A report for a held script moves one unit between two counts and
      leaves the total alone. */
  lemma UpdateCounts(t: Tracker, script: string, status: string, r: TestResult)
    requires script in t.results && Update(t, script, status).Success?
    ensures Total(Update(t, script, status).value) == Total(t)
    ensures Count(Update(t, script, status).value, r)
            == Count(t, r) - (if Matches(t.results[script], r) then 1 else 0)
               + (if Value(r) == status then 1 else 0)
  {
    var res := FromValue(status).value;
    ScriptsWithStore(t.results, script, Member(res), r);
    assert Matches(Member(res), r) <==> Value(r) == status by {
      if Value(r) == status { FromValueOfValue(r); }
    }
  }

  /** Every table entry counts as exactly one result. */
  predicate Classified(t: Tracker) {
    forall k :: k in t.results ==> t.results[k].Member? || FromValue(t.results[k].text).Some?
  }

  lemma {:induction false} DisjointCard(a: set<string>, b: set<string>)
    requires a * b == {}
    ensures |a + b| == |a| + |b|
  {
    assert |a * b| == 0;
  }

  /** No entry counts as two different results. */
  lemma ScriptsWithDisjoint(m: map<string, Entry>, r1: TestResult, r2: TestResult)
    requires r1 != r2
    ensures ScriptsWith(m, r1) * ScriptsWith(m, r2) == {}
  {
    forall k | k in ScriptsWith(m, r1) ensures k !in ScriptsWith(m, r2) {
      if m[k].Raw? {
        FromValueOfValue(r1);
        FromValueOfValue(r2);
      }
    }
  }

  /** The scripts counted under any of `rs`. */
  function ScriptsIn(m: map<string, Entry>, rs: seq<TestResult>): set<string>
    decreases |rs|
  {
    if |rs| == 0 then {} else ScriptsWith(m, rs[0]) + ScriptsIn(m, rs[1..])
  }

  /** The sum of the counts of `rs`. */
  function CountSum(m: map<string, Entry>, rs: seq<TestResult>): nat
    decreases |rs|
  {
    if |rs| == 0 then 0 else |ScriptsWith(m, rs[0])| + CountSum(m, rs[1..])
  }

  lemma {:induction false} ScriptsInMembers(m: map<string, Entry>, rs: seq<TestResult>, k: string)
    ensures k in ScriptsIn(m, rs) <==> k in m && exists i :: 0 <= i < |rs| && Matches(m[k], rs[i])
    decreases |rs|
  {
    if |rs| > 0 {
      ScriptsInMembers(m, rs[1..], k);
      if k in m && Matches(m[k], rs[0]) {
        assert Matches(m[k], rs[0]);
      }
      if k in m && exists i :: 0 <= i < |rs| && Matches(m[k], rs[i]) {
        var i :| 0 <= i < |rs| && Matches(m[k], rs[i]);
        if i > 0 { assert rs[1..][i - 1] == rs[i]; }
      }
      if k in ScriptsIn(m, rs[1..]) {
        var i :| 0 <= i < |rs[1..]| && Matches(m[k], rs[1..][i]);
        assert rs[i + 1] == rs[1..][i];
      }
    }
  }

  /** For distinct results the union of their scripts has the summed size. */
  lemma {:induction false} ScriptsInCard(m: map<string, Entry>, rs: seq<TestResult>)
    requires forall i, j :: 0 <= i < j < |rs| ==> rs[i] != rs[j]
    ensures |ScriptsIn(m, rs)| == CountSum(m, rs)
    decreases |rs|
  {
    if |rs| > 0 {
      ScriptsInCard(m, rs[1..]);
      forall k | k in ScriptsWith(m, rs[0]) ensures k !in ScriptsIn(m, rs[1..]) {
        forall i | 0 <= i < |rs[1..]| ensures !Matches(m[k], rs[1..][i]) {
          ScriptsWithDisjoint(m, rs[0], rs[1..][i]);
        }
        ScriptsInMembers(m, rs[1..], k);
      }
      DisjointCard(ScriptsWith(m, rs[0]), ScriptsIn(m, rs[1..]));
    }
  }

  const AllResults: seq<TestResult> := [Aborted, Failed, Finished, NotRun, Running, Skipped]

  /** The six counts add up to the sum over every result. */
  lemma CountSumAll(t: Tracker)
    ensures CountSum(t.results, AllResults)
            == Count(t, Aborted) + Count(t, Failed) + Count(t, Finished)
               + Count(t, NotRun) + Count(t, Running) + Count(t, Skipped)
  {
    var rs := AllResults;
    assert rs[1..] == [Failed, Finished, NotRun, Running, Skipped];
    assert rs[1..][1..] == [Finished, NotRun, Running, Skipped];
    assert rs[1..][1..][1..] == [NotRun, Running, Skipped];
    assert rs[1..][1..][1..][1..] == [Running, Skipped];
    assert rs[1..][1..][1..][1..][1..] == [Skipped];
    assert rs[1..][1..][1..][1..][1..][1..] == [];
  }

  /** On a classified table the six counts partition the total. */
  lemma CountsSumToTotal(t: Tracker)
    requires Classified(t)
    ensures Count(t, Aborted) + Count(t, Failed) + Count(t, Finished)
            + Count(t, NotRun) + Count(t, Running) + Count(t, Skipped) == Total(t)
  {
    var m := t.results;
    forall k | k in m ensures k in ScriptsIn(m, AllResults) {
      var res := if m[k].Member? then m[k].result else FromValue(m[k].text).value;
      assert Matches(m[k], res);
      var i := match res
        case Aborted => 0 case Failed => 1 case Finished => 2
        case NotRun => 3 case Running => 4 case Skipped => 5;
      assert AllResults[i] == res;
      ScriptsInMembers(m, AllResults, k);
    }
    forall k | k in ScriptsIn(m, AllResults) ensures k in m {
      ScriptsInMembers(m, AllResults, k);
    }
    assert ScriptsIn(m, AllResults) == m.Keys;
    ScriptsInCard(m, AllResults);
    CountSumAll(t);
  }

  /** On a table holding only enum members the six counts of the source
      partition the total. */
  lemma CountsSumToTotalAsWritten(t: Tracker)
    requires forall k :: k in t.results ==> t.results[k].Member?
    ensures CountAsWritten(t, Aborted) + CountAsWritten(t, Failed) + CountAsWritten(t, Finished)
            + CountAsWritten(t, NotRun) + CountAsWritten(t, Running) + CountAsWritten(t, Skipped) == Total(t)
  {
    CountAsWrittenAgrees(t, Aborted);
    CountAsWrittenAgrees(t, Failed);
    CountAsWrittenAgrees(t, Finished);
    CountAsWrittenAgrees(t, NotRun);
    CountAsWrittenAgrees(t, Running);
    CountAsWrittenAgrees(t, Skipped);
    CountsSumToTotal(t);
  }

  // ---------------------------------------------------------------------------
  // info
  // ---------------------------------------------------------------------------

  /** One `<tag><n>` piece of the summary followed by the rest. */
  function Field(tag: string, n: nat, rest: string): string {
    tag + (Dec(n) + rest)
  }

  /** The six numbers `info` shows, in its order. */
  datatype Counts = Counts(total: nat, passed: nat, skipped: nat, failed: nat, aborted: nat, notRun: nat)

  /** The numbers of the summary with the intended comparison. */
  function CountsOf(t: Tracker): Counts {
    Counts(Total(t), Count(t, Finished), Count(t, Skipped), Count(t, Failed), Count(t, Aborted), Count(t, NotRun))
  }

  /** The numbers of the summary as written. */
  function CountsAsWrittenOf(t: Tracker): Counts {
    Counts(Total(t), CountAsWritten(t, Finished), CountAsWritten(t, Skipped), CountAsWritten(t, Failed),
           CountAsWritten(t, Aborted), CountAsWritten(t, NotRun))
  }

  /** The `info_fmt` text for the given numbers. */
  function Summary(c: Counts): string {
    Field("Total ", c.total,
    Field(", passed ", c.passed,
    Field(", skipped ", c.skipped,
    Field(", failed ", c.failed,
    Field(", aborted ", c.aborted,
    Field(", not_run ", c.notRun, ""))))))
  }

  /** A field followed by a separator, or by nothing, can be read back. */
  lemma FieldInjective(tag: string, n1: nat, n2: nat, rest1: string, rest2: string)
    requires (|rest1| == 0 && |rest2| == 0) || (|rest1| > 0 && |rest2| > 0 && !IsDigit(rest1[0]) && !IsDigit(rest2[0]))
    requires Field(tag, n1, rest1) == Field(tag, n2, rest2)
    ensures n1 == n2 && rest1 == rest2
  {
    var s1, s2 := Dec(n1) + rest1, Dec(n2) + rest2;
    assert s1 == Field(tag, n1, rest1)[|tag|..];
    assert s2 == Field(tag, n2, rest2)[|tag|..];
    if |rest1| == 0 {
      assert Dec(n1) == s1 && Dec(n2) == s2;
    } else {
      DigitsThenSeparator(Dec(n1), Dec(n2), rest1, rest2);
    }
  }

  /** The summary text determines the six numbers it shows. */
  lemma SummaryInjective(c1: Counts, c2: Counts)
    ensures Summary(c1) == Summary(c2) ==> c1 == c2
  {
    if Summary(c1) == Summary(c2) {
      SummaryFields(c1, c2);
    }
  }

  lemma SummaryFields(c1: Counts, c2: Counts)
    requires Summary(c1) == Summary(c2)
    ensures c1 == c2
  {
    var n1 := Field(", not_run ", c1.notRun, "");
    var n2 := Field(", not_run ", c2.notRun, "");
    var a1 := Field(", aborted ", c1.aborted, n1);
    var a2 := Field(", aborted ", c2.aborted, n2);
    var f1 := Field(", failed ", c1.failed, a1);
    var f2 := Field(", failed ", c2.failed, a2);
    var k1 := Field(", skipped ", c1.skipped, f1);
    var k2 := Field(", skipped ", c2.skipped, f2);
    var p1 := Field(", passed ", c1.passed, k1);
    var p2 := Field(", passed ", c2.passed, k2);
    FieldInjective("Total ", c1.total, c2.total, p1, p2);
    FieldInjective(", passed ", c1.passed, c2.passed, k1, k2);
    FieldInjective(", skipped ", c1.skipped, c2.skipped, f1, f2);
    FieldInjective(", failed ", c1.failed, c2.failed, a1, a2);
    FieldInjective(", aborted ", c1.aborted, c2.aborted, n1, n2);
    FieldInjective(", not_run ", c1.notRun, c2.notRun, "", "");
  }

  /** `ResultMgr.info` as written: total, passed (finished), skipped, failed,
      aborted and not-run counts, in that order, by the source's `count`. */
  function InfoAsWritten(t: Tracker): (s: string)
    ensures (forall k :: k in t.results ==> t.results[k].Member?) ==> s == Summary(CountsOf(t))
    ensures (forall k :: k in t.results ==> t.results[k].Raw?) ==> s == Summary(Counts(Total(t), 0, 0, 0, 0, 0))
  {
    assert (forall k :: k in t.results ==> t.results[k].Member?) ==> CountsAsWrittenOf(t) == CountsOf(t) by {
      if forall k :: k in t.results ==> t.results[k].Member? {
        CountAsWrittenAgrees(t, Finished);
        CountAsWrittenAgrees(t, Skipped);
        CountAsWrittenAgrees(t, Failed);
        CountAsWrittenAgrees(t, Aborted);
        CountAsWrittenAgrees(t, NotRun);
      }
    }
    Summary(CountsAsWrittenOf(t))
  }

  /** `ResultMgr.info` with the intended comparison. It reads the same as
      the source's summary exactly when every count it shows agrees. */
  function Info(t: Tracker): (s: string)
    ensures s == InfoAsWritten(t) <==> CountsOf(t) == CountsAsWrittenOf(t)
  {
    SummaryInjective(CountsOf(t), CountsAsWrittenOf(t));
    Summary(CountsOf(t))
  }

  /** On a table holding only enum members both summaries read the same. */
  lemma InfoAgrees(t: Tracker)
    requires forall k :: k in t.results ==> t.results[k].Member?
    ensures InfoAsWritten(t) == Info(t)
  {
    CountAsWrittenAgrees(t, Finished);
    CountAsWrittenAgrees(t, Skipped);
    CountAsWrittenAgrees(t, Failed);
    CountAsWrittenAgrees(t, Aborted);
    CountAsWrittenAgrees(t, NotRun);
  }

  /** The summary line determines the total and the five counts it shows. */
  lemma InfoDeterminesCounts(t1: Tracker, t2: Tracker)
    requires Info(t1) == Info(t2)
    ensures Total(t1) == Total(t2)
    ensures Count(t1, Finished) == Count(t2, Finished) && Count(t1, Skipped) == Count(t2, Skipped)
    ensures Count(t1, Failed) == Count(t2, Failed) && Count(t1, Aborted) == Count(t2, Aborted)
    ensures Count(t1, NotRun) == Count(t2, NotRun)
  {
    SummaryInjective(CountsOf(t1), CountsOf(t2));
  }

  /** The default result of a new testcase is the value of `NOTRUN`: read
      through `TestResult(...)` it names that member, yet it is a string and
      not the member itself. */
  lemma DefaultResultIsNotRun(path: string)
    ensures FromValue(NewTestcase(path).result) == Some(NotRun)
    ensures Raw(NewTestcase(path).result) != Member(NotRun)
  {
    FromValueOfValue(NotRun);
  }

  /** Every entry of a table built from testcases nobody has run is the
      initial string `'NotRun'`. */
  lemma {:induction false} InitResultsNotRun(tcs: seq<Testcase>)
    requires forall i :: 0 <= i < |tcs| ==> tcs[i].result == Value(NotRun)
    ensures forall k :: k in InitResults(tcs) ==> InitResults(tcs)[k] == Raw(Value(NotRun))
    decreases |tcs|
  {
    if |tcs| > 0 {
      var pre := tcs[..|tcs| - 1];
      assert forall i :: 0 <= i < |pre| ==> pre[i] == tcs[i];
      InitResultsNotRun(pre);
    }
  }

  /** With the intended comparison, a fresh table counts every test as not
      run; the as-written `count` counts none. */
  lemma FreshAllNotRun(tcs: seq<Testcase>)
    requires forall i :: 0 <= i < |tcs| ==> tcs[i].result == Value(NotRun)
    ensures Count(Init(tcs), NotRun) == Total(Init(tcs))
    ensures CountAsWritten(Init(tcs), NotRun) == 0
  {
    InitResultsNotRun(tcs);
    var m := Init(tcs).results;
    assert ScriptsWith(m, NotRun) == m.Keys;
    assert (set k | k in m && MatchesAsWritten(m[k], NotRun)) == {};
  }

  /** A script nobody has reported on yet keeps the string `'NotRun'`, which
      the as-written `count` never matches: the summary of a fresh table of
      one test reports one test in total and none not run, where the
      intended comparison counts it. */
  lemma UntouchedNotCounted(path: string)
    ensures Total(Init([NewTestcase(path)])) == 1
    ensures CountAsWritten(Init([NewTestcase(path)]), NotRun) == 0
    ensures Count(Init([NewTestcase(path)]), NotRun) == 1
    ensures InfoAsWritten(Init([NewTestcase(path)])) != Info(Init([NewTestcase(path)]))
  {
    var t := Init([NewTestcase(path)]);
    assert [NewTestcase(path)][..0] == [];
    assert t.results == map[path := Raw("NotRun")];
    assert (set k | k in t.results && MatchesAsWritten(t.results[k], NotRun)) == {};
    assert ScriptsWith(t.results, NotRun) == {path};
  }
}
