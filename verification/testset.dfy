/** Test discovery of utils/testsetmgr.py: a test script declares its groups
    with `#group-<name> : enabled|disabled` lines and its parallelism with at
    most one `#parallel : <value>` line; `get_tests` keeps the parsed scripts
    that pass the group filter. File reading and globbing are left to the
    caller: a script is given as its path and its text. */
module Testset {
  import opened Wrappers
  import opened Errors
  import opened Text

  const GroupEnabled := "enabled"
  const GroupPrefix := "#group-"
  const ParallelPrefix := "#parallel"
  const NotRunText := "NotRun"

  /** `Testcase`: the script path, the groups it is enabled in, its parallel
      flag and its result, which starts as the text `NotRun`. */
  datatype Testcase = Testcase(script: string, groups: seq<string>, parallel: bool, result: string)

  /** `Testcase(filepath)` with its defaults, each test with a list of groups
      of its own. */
  function NewTestcase(path: string): (tc: Testcase)
    ensures tc.script == path && tc.groups == [] && !tc.parallel && tc.result == NotRunText
  {
    Testcase(path, [], false, NotRunText)
  }

  // ---------------------------------------------------------------------------
  // The group directive pattern `#group-(.*)(\s*):(\s*)(.+)`
  // ---------------------------------------------------------------------------

  /** The largest index below `n` that holds a colon, if any. */
  function LastColon(t: string, n: nat): (r: Option<nat>)
    requires n <= |t|
    ensures r.Some? ==> r.value < n && t[r.value] == ':' && forall q :: r.value < q < n ==> t[q] != ':'
    ensures r.None? ==> forall q :: 0 <= q < n ==> t[q] != ':'
    decreases n
  {
    if n == 0 then None
    else if t[n - 1] == ':' then Some(n - 1)
    else LastColon(t, n - 1)
  }

  /** A colon with no colon after it below `n` is the one `LastColon` finds. */
  lemma {:induction false} LastColonIs(t: string, n: nat, p: nat)
    requires p < n <= |t| && t[p] == ':'
    requires forall q :: p < q < n ==> t[q] != ':'
    ensures LastColon(t, n) == Some(p)
    decreases n
  {
    if n - 1 != p {
      LastColonIs(t, n - 1, p);
    }
  }

  /** The stripped name (group 1) and state (group 4) of a matching directive. */
  datatype GroupDirective = GroupDirective(name: string, state: string)

  /** `re.match` of the group pattern on a line without a line break. The
      pattern needs a colon followed by at least one character; the greedy
      `(.*)` makes group 1 end at the last such colon, and stripping group 4
      gives the stripped text after that colon, whatever `(\s*)` took. */
  function MatchGroup(line: string): (r: Option<GroupDirective>)
    requires StartsWith(line, GroupPrefix)
  {
    var t := line[|GroupPrefix|..];
    if |t| < 2 then None
    else
      match LastColon(t, |t| - 1)
      case None => None
      case Some(p) => Some(GroupDirective(Strip(t[..p]), Strip(t[p + 1..])))
  }

  /** A directive `#group-<name>:<value>` whose value holds no colon is read
      as the stripped name and the stripped value, whatever colons the name
      holds. */
  lemma MatchGroupLine(name: string, value: string)
    requires ':' !in value && |value| >= 1
    ensures StartsWith(GroupPrefix + (name + ":" + value), GroupPrefix)
    ensures MatchGroup(GroupPrefix + (name + ":" + value)) == Some(GroupDirective(Strip(name), Strip(value)))
  {
    var t := name + ":" + value;
    var line := GroupPrefix + t;
    assert line[..|GroupPrefix|] == GroupPrefix;
    assert line[|GroupPrefix|..] == t;
    forall q | |name| < q < |t| - 1 ensures t[q] != ':' {
      assert t[q] == value[q - |name| - 1];
    }
    assert t[|name|] == ':';
    LastColonIs(t, |t| - 1, |name|);
    assert t[..|name|] == name;
    assert t[|name| + 1..] == value;
  }

  // ---------------------------------------------------------------------------
  // The parallel directive pattern `#parallel(\s*):(\s*)(.+)`
  // ---------------------------------------------------------------------------

  /** `re.match` of the parallel pattern on a line without a line break: after
      the prefix, white space, a colon and at least one more character.
      Stripping group 3 gives the stripped text after the colon, whatever the
      second `(\s*)` took. */
  function MatchParallel(line: string): Option<string>
    requires StartsWith(line, ParallelPrefix)
  {
    var u := TrimLeft(line[|ParallelPrefix|..]);
    if |u| >= 2 && u[0] == ':' then Some(Strip(u[1..])) else None
  }

  /** Position `i` holds the colon of the parallel pattern: only white space
      lies between the prefix and it. */
  predicate ParallelColon(line: string, i: nat)
    requires |ParallelPrefix| <= i < |line|
  {
    line[i] == ':' && forall j :: |ParallelPrefix| <= j < i ==> IsSpace(line[j])
  }

  /** The pattern matches exactly when a colon follows the prefix after white
      space and is not the last character, and the value is then the stripped
      text after that colon. */
  lemma MatchParallelSpec(line: string)
    requires StartsWith(line, ParallelPrefix)
    ensures MatchParallel(line).Some? <==>
              exists i :: |ParallelPrefix| <= i < |line| - 1 && ParallelColon(line, i)
    ensures forall i :: |ParallelPrefix| <= i < |line| - 1 && ParallelColon(line, i) ==>
              MatchParallel(line) == Some(Strip(line[i + 1..]))
  {
    var t := line[|ParallelPrefix|..];
    var u := TrimLeft(t);
    TrimLeftSpec(t);
    var n := |ParallelPrefix| + |t| - |u|;
    assert forall j :: |ParallelPrefix| <= j < n ==> line[j] == t[j - |ParallelPrefix|];
    if |u| >= 2 && u[0] == ':' {
      assert line[n] == u[0];
      assert ParallelColon(line, n);
      assert u[1..] == line[n + 1..];
    }
    assert n < |line| ==> line[n] == u[0];
    forall i | |ParallelPrefix| <= i < |line| - 1 && ParallelColon(line, i)
      ensures i == n && |u| >= 2 && u[0] == ':'
    {
      if i != n {
        assert false;
      }
    }
  }

  /** The value compared with `true` after lower-casing its ASCII letters. */
  predicate SaysTrue(value: string) {
    AsciiLower(value) == "true"
  }

  function AsciiLower(s: string): string
    decreases |s|
  {
    if |s| == 0 then ""
    else [if 'A' <= s[0] <= 'Z' then (s[0] as int + 32) as char else s[0]] + AsciiLower(s[1..])
  }

  // ---------------------------------------------------------------------------
  // get_testcase
  // ---------------------------------------------------------------------------

  /** The testcase built so far and whether a `#parallel` line was seen. */
  datatype ScanState = ScanState(testcase: Testcase, sawParallel: bool)

  /** How the value of a matching `#parallel` line is read. `AsWritten` calls
      `str.tolower`, which does not exist and raises `AttributeError`;
      `Intended` lower-cases the value and sets the flag to whether it reads
      `true`. */
  datatype Reading = AsWritten | Intended

  predicate IsGroupLine(line: string) {
    StartsWith(line, GroupPrefix)
  }

  predicate IsParallelLine(line: string) {
    !StartsWith(line, GroupPrefix) && StartsWith(line, ParallelPrefix)
  }

  /** A `#parallel` line that matches the parallel pattern. */
  predicate ParallelMatches(line: string) {
    IsParallelLine(line) && MatchParallel(line).Some?
  }

  /** Every group line of the script matches the directive pattern. */
  predicate GroupLinesWellFormed(lines: seq<string>) {
    forall i :: 0 <= i < |lines| && IsGroupLine(lines[i]) ==> MatchGroup(lines[i]).Some?
  }

  /** No `#parallel` line of the script matches the parallel pattern. */
  predicate NoParallelValue(lines: seq<string>) {
    forall i :: 0 <= i < |lines| ==> !ParallelMatches(lines[i])
  }

  /** The number of `#parallel` lines. */
  function ParallelLines(lines: seq<string>): nat
    decreases |lines|
  {
    if |lines| == 0 then 0
    else (if IsParallelLine(lines[0]) then 1 else 0) + ParallelLines(lines[1..])
  }

  /** The group a line enables: its name when it is a group line whose state
      is exactly `enabled`. */
  function LineGroup(line: string): seq<string> {
    if IsGroupLine(line) && MatchGroup(line).Some? && MatchGroup(line).value.state == GroupEnabled
    then [MatchGroup(line).value.name]
    else []
  }

  /** The names of the group lines whose state is exactly `enabled`, in order. */
  function EnabledGroups(lines: seq<string>): seq<string>
    decreases |lines|
  {
    if |lines| == 0 then [] else LineGroup(lines[0]) + EnabledGroups(lines[1..])
  }

  /** The parallel flag after a line: what a matching `#parallel` line says,
      otherwise the flag before it. */
  function LineParallel(line: string, parallel: bool): bool {
    if ParallelMatches(line) then SaysTrue(MatchParallel(line).value) else parallel
  }

  /** The parallel flag after the lines, starting from `parallel`. */
  function ParallelAfter(lines: seq<string>, parallel: bool): bool
    decreases |lines|
  {
    if |lines| == 0 then parallel else ParallelAfter(lines[1..], LineParallel(lines[0], parallel))
  }

  /** Without a matching `#parallel` line the flag keeps its value. */
  lemma {:induction false} ParallelAfterUnchanged(lines: seq<string>, parallel: bool)
    requires NoParallelValue(lines)
    ensures ParallelAfter(lines, parallel) == parallel
    decreases |lines|
  {
    if |lines| > 0 {
      assert !ParallelMatches(lines[0]);
      assert forall i :: 0 <= i < |lines| - 1 ==> lines[1..][i] == lines[i + 1];
      ParallelAfterUnchanged(lines[1..], parallel);
    }
  }

  /** The conditions under which one line is accepted, given whether a
      `#parallel` line was seen before it. */
  predicate LineAccepted(line: string, sawParallel: bool, reading: Reading) {
    && (IsGroupLine(line) ==> MatchGroup(line).Some?)
    && !(IsParallelLine(line) && sawParallel)
    && !(reading.AsWritten? && ParallelMatches(line))
  }

  /** The conditions under which all the lines are accepted: every group line
      is well formed, there is at most one `#parallel` line counting one seen
      before, and, as written, none of them matches the parallel pattern. */
  predicate LinesAccepted(lines: seq<string>, sawParallel: bool, reading: Reading) {
    && GroupLinesWellFormed(lines)
    && ParallelLines(lines) + (if sawParallel then 1 else 0) <= 1
    && (reading.AsWritten? ==> NoParallelValue(lines))
  }

  /** One iteration of the loop in `get_testcase`: a malformed group line or
      a second `#parallel` line is rejected, an enabled group is appended, a
      first matching `#parallel` line sets the flag (or raises, as written),
      and nothing else changes. */
  function ScanLine(path: string, st: ScanState, line: string, reading: Reading): (r: Result<ScanState, Error>)
    ensures r.Success? <==> LineAccepted(line, st.sawParallel, reading)
    ensures r.Success? ==>
              && r.value.testcase == st.testcase.(groups := st.testcase.groups + LineGroup(line),
                                                  parallel := LineParallel(line, st.testcase.parallel))
              && r.value.sawParallel == (st.sawParallel || IsParallelLine(line))
    ensures r.Failure? ==>
              || (r.error.MalformedScript? && r.error.path == path)
              || (reading.AsWritten? && ParallelMatches(line) && r.error == NoAttribute("tolower"))
  {
    if IsGroupLine(line) then
      match MatchGroup(line)
      case None => Failure(MalformedScript(path, BadGroupLine(line)))
      case Some(d) =>
        if d.state == GroupEnabled then
          Success(st.(testcase := st.testcase.(groups := st.testcase.groups + [d.name])))
        else Success(st)
    else if IsParallelLine(line) then
      if st.sawParallel then Failure(MalformedScript(path, RepeatedParallel))
      else
        match MatchParallel(line)
        case None => Success(st.(sawParallel := true))
        case Some(value) =>
          if reading.AsWritten? then Failure(NoAttribute("tolower"))
          else Success(ScanState(st.testcase.(parallel := SaysTrue(value)), true))
    else Success(st)
  }

  /** The script-level facts split into the first line and the rest. */
  lemma LinesCons(lines: seq<string>)
    requires |lines| > 0
    ensures GroupLinesWellFormed(lines) <==>
              (IsGroupLine(lines[0]) ==> MatchGroup(lines[0]).Some?) && GroupLinesWellFormed(lines[1..])
    ensures ParallelLines(lines) == (if IsParallelLine(lines[0]) then 1 else 0) + ParallelLines(lines[1..])
  {
    var rest := lines[1..];
    assert forall i :: 0 <= i < |rest| ==> rest[i] == lines[i + 1];
    if GroupLinesWellFormed(rest) && (IsGroupLine(lines[0]) ==> MatchGroup(lines[0]).Some?) {
      forall i | 0 <= i < |lines| && IsGroupLine(lines[i]) ensures MatchGroup(lines[i]).Some? {
        if i > 0 {
          assert lines[i] == rest[i - 1];
        }
      }
    }
  }

  lemma NoParallelValueCons(lines: seq<string>)
    requires |lines| > 0
    ensures NoParallelValue(lines) <==> !ParallelMatches(lines[0]) && NoParallelValue(lines[1..])
  {
    var rest := lines[1..];
    assert forall i :: 0 <= i < |rest| ==> rest[i] == lines[i + 1];
    if NoParallelValue(rest) && !ParallelMatches(lines[0]) {
      forall i | 0 <= i < |lines| ensures !ParallelMatches(lines[i]) {
        if i > 0 {
          assert lines[i] == rest[i - 1];
        }
      }
    }
  }

  /** Acceptance of the lines split into the first line and the rest. */
  lemma LinesAcceptedCons(lines: seq<string>, sawParallel: bool, reading: Reading)
    requires |lines| > 0
    ensures LinesAccepted(lines, sawParallel, reading) <==>
              LineAccepted(lines[0], sawParallel, reading)
              && LinesAccepted(lines[1..], sawParallel || IsParallelLine(lines[0]), reading)
    ensures ParallelLines(lines) > 0 <==> IsParallelLine(lines[0]) || ParallelLines(lines[1..]) > 0
    ensures ParallelAfter(lines, false) == ParallelAfter(lines[1..], LineParallel(lines[0], false))
    ensures ParallelAfter(lines, true) == ParallelAfter(lines[1..], LineParallel(lines[0], true))
  {
    LinesCons(lines);
    NoParallelValueCons(lines);
  }

  /** The loop of `get_testcase` over the script's lines: it fails exactly when
      a group line is malformed, a second `#parallel` line appears or, as
      written, a `#parallel` line matches; otherwise it appends the enabled
      groups in order, sets the flag from the `#parallel` line and changes
      nothing else. */
  function ScanLines(path: string, st: ScanState, lines: seq<string>, reading: Reading): (r: Result<ScanState, Error>)
    ensures r.Success? <==> LinesAccepted(lines, st.sawParallel, reading)
    ensures r.Failure? ==>
              || (r.error.MalformedScript? && r.error.path == path)
              || (reading.AsWritten? && r.error == NoAttribute("tolower"))
    decreases |lines|
  {
    if |lines| == 0 then Success(st)
    else
      LinesAcceptedCons(lines, st.sawParallel, reading);
      match ScanLine(path, st, lines[0], reading)
      case Failure(e) => Failure(e)
      case Success(st') => ScanLines(path, st', lines[1..], reading)
  }

  /** An accepted script accepts its first line and hands the state after it
      on to the rest of the loop. */
  lemma ScanLinesStep(path: string, st: ScanState, lines: seq<string>, reading: Reading) returns (st': ScanState)
    requires |lines| > 0 && ScanLines(path, st, lines, reading).Success?
    ensures ScanLines(path, st, lines, reading) == ScanLines(path, st', lines[1..], reading)
    ensures st'.testcase == st.testcase.(groups := st.testcase.groups + LineGroup(lines[0]),
                                         parallel := LineParallel(lines[0], st.testcase.parallel))
    ensures st'.sawParallel == (st.sawParallel || IsParallelLine(lines[0]))
  {
    st' := ScanLine(path, st, lines[0], reading).value;
  }

  /** An accepted script keeps the path and the result and appends the
      enabled groups in order. */
  lemma {:induction false} ScanLinesGroups(path: string, st: ScanState, lines: seq<string>, reading: Reading)
    requires ScanLines(path, st, lines, reading).Success?
    ensures var tc := ScanLines(path, st, lines, reading).value.testcase;
            && tc.script == st.testcase.script && tc.result == st.testcase.result
            && tc.groups == st.testcase.groups + EnabledGroups(lines)
    decreases |lines|
  {
    if |lines| > 0 {
      var st' := ScanLinesStep(path, st, lines, reading);
      ScanLinesGroups(path, st', lines[1..], reading);
      var g, a, b := st.testcase.groups, LineGroup(lines[0]), EnabledGroups(lines[1..]);
      assert EnabledGroups(lines) == a + b;
      assert (g + a) + b == g + (a + b);
    }
  }

  /** An accepted script ends with the flag its `#parallel` line sets and
      records whether it had one. */
  lemma {:induction false} ScanLinesParallel(path: string, st: ScanState, lines: seq<string>, reading: Reading)
    requires ScanLines(path, st, lines, reading).Success?
    ensures var r := ScanLines(path, st, lines, reading).value;
            && r.testcase.parallel == ParallelAfter(lines, st.testcase.parallel)
            && r.sawParallel == (st.sawParallel || ParallelLines(lines) > 0)
    decreases |lines|
  {
    if |lines| > 0 {
      var st' := ScanLinesStep(path, st, lines, reading);
      ScanLinesParallel(path, st', lines[1..], reading);
    }
  }

  /** What an accepted script yields: the enabled groups appended in order,
      the flag the `#parallel` line sets, and whether one was seen. */
  lemma ScanLinesValue(path: string, st: ScanState, lines: seq<string>, reading: Reading)
    requires ScanLines(path, st, lines, reading).Success?
    ensures var r := ScanLines(path, st, lines, reading).value;
            && r.testcase == st.testcase.(groups := st.testcase.groups + EnabledGroups(lines),
                                          parallel := ParallelAfter(lines, st.testcase.parallel))
            && r.sawParallel == (st.sawParallel || ParallelLines(lines) > 0)
  {
    ScanLinesGroups(path, st, lines, reading);
    ScanLinesParallel(path, st, lines, reading);
  }

  /** `TestsetMgr.get_testcase` as it was evidently meant, lower-casing the
      `#parallel` value: it parses the script text line by line (the lines of
      the file, without their line breaks). A script is accepted exactly when
      all its group lines are well formed and it has at most one `#parallel`
      line; the testcase then carries the script path, the enabled groups in
      order, the flag the `#parallel` line sets (False without one) and result
      `NotRun`. */
  function GetTestcase(path: string, text: string): (r: Result<Testcase, Error>)
    ensures var lines := Split(text, '\n');
            r.Success? <==> GroupLinesWellFormed(lines) && ParallelLines(lines) <= 1
    ensures var lines := Split(text, '\n');
            r.Success? ==> r.value == Testcase(path, EnabledGroups(lines), ParallelAfter(lines, false), NotRunText)
    ensures r.Failure? ==> r.error.MalformedScript? && r.error.path == path
  {
    var st :- ScanLines(path, ScanState(NewTestcase(path), false), Split(text, '\n'), Intended);
    ScanLinesValue(path, ScanState(NewTestcase(path), false), Split(text, '\n'), Intended);
    Success(st.testcase)
  }

  /** `TestsetMgr.get_testcase` as written: a `#parallel` line that matches
      the pattern raises `AttributeError` from `str.tolower`, so a script is
      accepted only when it has no such line, and `parallel` is then always
      False. */
  function GetTestcaseAsWritten(path: string, text: string): (r: Result<Testcase, Error>)
    ensures var lines := Split(text, '\n');
            r.Success? <==> GroupLinesWellFormed(lines) && ParallelLines(lines) <= 1 && NoParallelValue(lines)
    ensures r.Success? ==> r.value == Testcase(path, EnabledGroups(Split(text, '\n')), false, NotRunText)
    ensures r.Failure? ==> (r.error.MalformedScript? && r.error.path == path) || r.error == NoAttribute("tolower")
  {
    var st :- ScanLines(path, ScanState(NewTestcase(path), false), Split(text, '\n'), AsWritten);
    ScanLinesValue(path, ScanState(NewTestcase(path), false), Split(text, '\n'), AsWritten);
    ParallelAfterUnchanged(Split(text, '\n'), false);
    Success(st.testcase)
  }

  /** Both readings agree line by line on a line that is not a matching
      `#parallel` line. */
  lemma {:induction false} ScanLinesAgree(path: string, st: ScanState, lines: seq<string>)
    requires NoParallelValue(lines)
    ensures ScanLines(path, st, lines, AsWritten) == ScanLines(path, st, lines, Intended)
    decreases |lines|
  {
    if |lines| > 0 {
      NoParallelValueCons(lines);
      assert ScanLine(path, st, lines[0], AsWritten) == ScanLine(path, st, lines[0], Intended);
      match ScanLine(path, st, lines[0], Intended)
      case Failure(_) =>
      case Success(st') => ScanLinesAgree(path, st', lines[1..]);
    }
  }

  /** A script without a matching `#parallel` line parses the same either way. */
  lemma GetTestcaseAgrees(path: string, text: string)
    requires NoParallelValue(Split(text, '\n'))
    ensures GetTestcaseAsWritten(path, text) == GetTestcase(path, text)
  {
    ScanLinesAgree(path, ScanState(NewTestcase(path), false), Split(text, '\n'));
  }

  /** The documented form `#parallel : <value>` matches, with the stripped
      value. */
  lemma ParallelDirectiveMatches(value: string)
    ensures IsParallelLine("#parallel : " + value)
    ensures MatchParallel("#parallel : " + value) == Some(Strip(value))
  {
    var line := "#parallel : " + value;
    assert line[..|ParallelPrefix|] == ParallelPrefix;
    assert line[1] != GroupPrefix[1];
    var t := line[|ParallelPrefix|..];
    assert t == [' '] + (":" + " " + value);
    assert TrimLeft(t) == ":" + " " + value;
    assert TrimLeft(" " + value) == TrimLeft(value);
  }

  /** A script whose only line is the documented `#parallel : <value>`
      directive raises `AttributeError` as written, and as intended sets the
      flag to whether the stripped value reads `true`. */
  lemma ParallelDirective(path: string, value: string)
    requires '\n' !in value
    ensures GetTestcaseAsWritten(path, "#parallel : " + value + "\n") == Failure(NoAttribute("tolower"))
    ensures GetTestcase(path, "#parallel : " + value + "\n")
            == Success(Testcase(path, [], SaysTrue(Strip(value)), NotRunText))
  {
    var line := "#parallel : " + value;
    ParallelDirectiveMatches(value);
    assert '\n' !in line by {
      assert forall i :: 0 <= i < |line| ==> line[i] == if i < 12 then "#parallel : "[i] else value[i - 12];
    }
    DirectiveLines(line);
    var lines := [line, ""];
    var st := ScanState(NewTestcase(path), false);
    assert ScanLine(path, st, line, AsWritten) == Failure(NoAttribute("tolower"));
    assert ScanLines(path, st, lines, AsWritten) == Failure(NoAttribute("tolower"));
    assert ParallelAfter(lines, false) == SaysTrue(Strip(value)) by {
      assert ParallelAfter(lines, false) == ParallelAfter([""], LineParallel(line, false));
      assert [""][1..] == [];
    }
  }

  /** A one-line script ending in a line break is that line and an empty
      one; the empty line is neither a group nor a `#parallel` line. */
  lemma DirectiveLines(line: string)
    requires '\n' !in line && IsParallelLine(line)
    ensures Split(line + "\n", '\n') == [line, ""]
    ensures GroupLinesWellFormed([line, ""])
    ensures ParallelLines([line, ""]) == 1
    ensures EnabledGroups([line, ""]) == []
  {
    assert line + "\n" == line + ['\n'] + "";
    SplitAfter(line, "", '\n');
    assert Split("", '\n') == [""];
    var lines := [line, ""];
    assert !IsGroupLine(line) && !IsGroupLine("") && !IsParallelLine("");
    LinesCons(lines);
    LinesCons(lines[1..]);
    assert lines[1..][1..] == [];
    assert LineGroup(line) == [] && LineGroup("") == [];
    assert EnabledGroups([""]) == [] + EnabledGroups([]);
    assert EnabledGroups(lines) == [] + EnabledGroups([""]);
  }

  /** `#parallel : true`, the example of the docstring, makes the test
      parallel as intended and raises as written. */
  lemma ParallelTrueDirective(path: string)
    ensures GetTestcaseAsWritten(path, "#parallel : " + "true" + "\n") == Failure(NoAttribute("tolower"))
    ensures GetTestcase(path, "#parallel : " + "true" + "\n") == Success(Testcase(path, [], true, NotRunText))
  {
    ParallelDirective(path, "true");
    TrueSaysTrue();
  }

  lemma TrueSaysTrue()
    ensures SaysTrue(Strip("true"))
  {
    assert Unpadded("true");
    StripPadded("true", ' ');
    assert AsciiLower("true") == "true";
  }

  /** A group line with state `enabled` adds its stripped name; any other
      state, `disabled` included, adds nothing; a second `#parallel` line is
      rejected whatever follows it; a first one that does not match only
      marks the flag as seen, and a first one that matches raises as written
      and sets the flag from its value as intended; other lines change
      nothing. */
  lemma ScanLineCases(path: string, st: ScanState, line: string, reading: Reading)
    ensures IsGroupLine(line) && MatchGroup(line).None? ==>
              ScanLine(path, st, line, reading) == Failure(MalformedScript(path, BadGroupLine(line)))
    ensures IsGroupLine(line) && MatchGroup(line).Some? && MatchGroup(line).value.state == GroupEnabled ==>
              ScanLine(path, st, line, reading).Success?
              && ScanLine(path, st, line, reading).value.testcase.groups == st.testcase.groups + [MatchGroup(line).value.name]
    ensures IsGroupLine(line) && MatchGroup(line).Some? && MatchGroup(line).value.state != GroupEnabled ==>
              ScanLine(path, st, line, reading) == Success(st)
    ensures IsParallelLine(line) && st.sawParallel ==>
              ScanLine(path, st, line, reading) == Failure(MalformedScript(path, RepeatedParallel))
    ensures IsParallelLine(line) && !st.sawParallel && MatchParallel(line).None? ==>
              ScanLine(path, st, line, reading) == Success(st.(sawParallel := true))
    ensures IsParallelLine(line) && !st.sawParallel && MatchParallel(line).Some? ==>
              ScanLine(path, st, line, reading)
              == if reading.AsWritten? then Failure(NoAttribute("tolower"))
                 else Success(ScanState(st.testcase.(parallel := SaysTrue(MatchParallel(line).value)), true))
    ensures !IsGroupLine(line) && !IsParallelLine(line) ==> ScanLine(path, st, line, reading) == Success(st)
  {
  }

  /** `#group-C13 : enabled`, the directive of tests/test5.py, reads as group
      `C13` with state `enabled`. */
  lemma Test5Directive()
    ensures IsGroupLine("#group-C13 : enabled")
    ensures MatchGroup("#group-C13 : enabled") == Some(GroupDirective("C13", GroupEnabled))
  {
    var line := "#group-C13 : enabled";
    assert line == GroupPrefix + ("C13 " + ":" + " enabled") by {
      assert GroupPrefix + ("C13 " + ":" + " enabled") == "#group-C13 : enabled";
    }
    assert Strip("C13 ") == "C13" by {
      StripPadded("C13", ' ');
      assert "C13 " == "C13" + [' '];
    }
    assert Strip(" enabled") == "enabled" by {
      StripPadded("enabled", ' ');
      assert " enabled" == [' '] + "enabled";
    }
    MatchGroupLine("C13 ", " enabled");
  }

  lemma Test5Split()
    ensures Split("#group-C13 : enabled\n", '\n') == ["#group-C13 : enabled", ""]
  {
    var lines := ["#group-C13 : enabled", ""];
    assert "#group-C13 : enabled\n" == Join(lines, '\n');
    SplitJoin(lines, '\n');
  }

  lemma Test5Lines()
    ensures var lines := ["#group-C13 : enabled", ""];
            && GroupLinesWellFormed(lines) && ParallelLines(lines) == 0 && EnabledGroups(lines) == ["C13"]
            && ParallelAfter(lines, false) == false
  {
    var lines := ["#group-C13 : enabled", ""];
    Test5Directive();
    assert !IsParallelLine(lines[0]);
    assert !IsGroupLine(lines[1]) && !IsParallelLine(lines[1]);
    LinesCons(lines);
    LinesCons(lines[1..]);
    assert lines[1..][1..] == [];
    assert LineGroup(lines[0]) == ["C13"];
    assert NoParallelValue(lines);
    ParallelAfterUnchanged(lines, false);
  }

  /** A script holding only the directive of tests/test5.py is a test in
      group `C13`. */
  lemma Test5Groups()
    ensures GetTestcase("tests/test5.py", "#group-C13 : enabled\n")
            == Success(Testcase("tests/test5.py", ["C13"], false, NotRunText))
  {
    Test5Split();
    Test5Lines();
  }

  // ---------------------------------------------------------------------------
  // get_tests
  // ---------------------------------------------------------------------------

  /** The filter of `get_tests` as written: `set(groups) - set(req_groups)` is
      non-empty, i.e. the test has a group that was NOT requested. */
  predicate HasUnrequestedGroup(tc: Testcase, reqGroups: seq<string>) {
    exists i :: 0 <= i < |tc.groups| && tc.groups[i] !in reqGroups
  }

  /** The selection the docstring describes: the test belongs to one of the
      requested groups. */
  predicate InRequestedGroup(tc: Testcase, reqGroups: seq<string>) {
    exists i :: 0 <= i < |tc.groups| && tc.groups[i] in reqGroups
  }

  /** The testcases satisfying `keep`, in input order. */
  function Filter(tcs: seq<Testcase>, keep: Testcase -> bool): (r: seq<Testcase>)
    ensures |r| <= |tcs|
    ensures forall i :: 0 <= i < |r| ==> keep(r[i])
    ensures forall i :: 0 <= i < |tcs| && keep(tcs[i]) ==> tcs[i] in r
    ensures forall tc :: tc in r ==> tc in tcs
    decreases |tcs|
  {
    if |tcs| == 0 then []
    else
      var rest := Filter(tcs[1..], keep);
      assert forall i :: 1 <= i < |tcs| ==> tcs[i] == tcs[1..][i - 1];
      if keep(tcs[0]) then [tcs[0]] + rest else rest
  }

  /** Filtering keeps the input order: it distributes over concatenation. */
  lemma {:induction false} FilterAppend(a: seq<Testcase>, b: seq<Testcase>, keep: Testcase -> bool)
    ensures Filter(a + b, keep) == Filter(a, keep) + Filter(b, keep)
    decreases |a|
  {
    if |a| > 0 {
      assert (a + b)[1..] == a[1..] + b;
      FilterAppend(a[1..], b, keep);
    } else {
      assert a + b == b;
    }
  }

  /** Parses every script with `parse`, in order, stopping at the first
      failure. */
  function ParseEach(scripts: seq<(string, string)>, parse: ((string, string)) -> Result<Testcase, Error>): Result<seq<Testcase>, Error>
    decreases |scripts|
  {
    if |scripts| == 0 then Success([])
    else
      var tc :- parse(scripts[0]);
      var rest :- ParseEach(scripts[1..], parse);
      Success([tc] + rest)
  }

  /** `ParseEach` succeeds exactly when every script parses, and then yields
      their testcases in order; otherwise it fails with the error of one of
      them. */
  lemma {:induction false} ParseEachSpec(scripts: seq<(string, string)>, parse: ((string, string)) -> Result<Testcase, Error>)
    ensures var r := ParseEach(scripts, parse);
            && (r.Success? <==> forall i :: 0 <= i < |scripts| ==> parse(scripts[i]).Success?)
            && (r.Success? ==> |r.value| == |scripts|)
            && (r.Success? ==> forall i :: 0 <= i < |scripts| ==> r.value[i] == parse(scripts[i]).value)
            && (r.Failure? ==> exists i :: 0 <= i < |scripts| && parse(scripts[i]) == Failure(r.error))
    decreases |scripts|
  {
    if |scripts| > 0 {
      var rest := scripts[1..];
      ParseEachSpec(rest, parse);
      assert forall i :: 1 <= i < |scripts| ==> scripts[i] == rest[i - 1];
      var r := ParseEach(scripts, parse);
      if parse(scripts[0]).Success? && ParseEach(rest, parse).Failure? {
        var k :| 0 <= k < |rest| && parse(rest[k]) == Failure(ParseEach(rest, parse).error);
        assert scripts[k + 1] == rest[k];
      }
    }
  }

  /** Parsing a concatenation parses each part in turn. */
  lemma {:induction false} ParseEachAppend(a: seq<(string, string)>, b: seq<(string, string)>, parse: ((string, string)) -> Result<Testcase, Error>)
    requires ParseEach(a + b, parse).Success?
    ensures ParseEach(a, parse).Success? && ParseEach(b, parse).Success?
    ensures ParseEach(a + b, parse).value == ParseEach(a, parse).value + ParseEach(b, parse).value
    decreases |a|
  {
    if |a| == 0 {
      assert a + b == b;
    } else {
      var ab := a + b;
      assert ab[0] == a[0] && ab[1..] == a[1..] + b;
      ParseEachAppend(a[1..], b, parse);
      var x, y, z := parse(a[0]).value, ParseEach(a[1..], parse).value, ParseEach(b, parse).value;
      assert ParseEach(ab, parse).value == [x] + (y + z);
      assert ParseEach(a, parse).value == [x] + y;
      assert [x] + (y + z) == ([x] + y) + z;
    }
  }

  function ParseScript(script: (string, string)): Result<Testcase, Error> {
    GetTestcase(script.0, script.1)
  }

  /** Parses every candidate script, stopping at the first malformed one. */
  function ParseAll(scripts: seq<(string, string)>): (r: Result<seq<Testcase>, Error>)
    ensures r.Success? <==> forall i :: 0 <= i < |scripts| ==> GetTestcase(scripts[i].0, scripts[i].1).Success?
    ensures r.Success? ==> |r.value| == |scripts|
    ensures r.Failure? ==> r.error.MalformedScript?
    ensures r.Success? ==>
              forall i :: 0 <= i < |scripts| ==> r.value[i] == GetTestcase(scripts[i].0, scripts[i].1).value
  {
    ParseEachSpec(scripts, ParseScript);
    ParseEach(scripts, ParseScript)
  }

  /** `TestsetMgr.get_tests` over the candidate scripts (the named tests, or
      every script found under the test root), as written: parse each, keep
      those with a group outside `reqGroups`, in input order. */
  function GetTests(scripts: seq<(string, string)>, reqGroups: seq<string>): (r: Result<seq<Testcase>, Error>)
    ensures r.Success? <==> forall i :: 0 <= i < |scripts| ==> GetTestcase(scripts[i].0, scripts[i].1).Success?
    ensures r.Success? ==> forall i :: 0 <= i < |r.value| ==> HasUnrequestedGroup(r.value[i], reqGroups)
    ensures r.Success? ==>
              forall i :: 0 <= i < |scripts| ==>
                var tc := GetTestcase(scripts[i].0, scripts[i].1).value;
                HasUnrequestedGroup(tc, reqGroups) ==> tc in r.value
    ensures r.Failure? ==> r.error.MalformedScript?
  {
    var tcs :- ParseAll(scripts);
    var keep := tc => HasUnrequestedGroup(tc, reqGroups);
    var kept := Filter(tcs, keep);
    assert forall i :: 0 <= i < |kept| ==> keep(kept[i]);
    assert forall i :: 0 <= i < |tcs| && keep(tcs[i]) ==> tcs[i] in kept;
    Success(kept)
  }

  /** `get_tests` with the selection its docstring describes: keep the tests
      that belong to a requested group, in input order. */
  function GetTestsIntended(scripts: seq<(string, string)>, reqGroups: seq<string>): (r: Result<seq<Testcase>, Error>)
    ensures r.Success? <==> forall i :: 0 <= i < |scripts| ==> GetTestcase(scripts[i].0, scripts[i].1).Success?
    ensures r.Success? ==> forall i :: 0 <= i < |r.value| ==> InRequestedGroup(r.value[i], reqGroups)
    ensures r.Success? ==>
              forall i :: 0 <= i < |scripts| ==>
                var tc := GetTestcase(scripts[i].0, scripts[i].1).value;
                InRequestedGroup(tc, reqGroups) ==> tc in r.value
  {
    var tcs :- ParseAll(scripts);
    var keep := tc => InRequestedGroup(tc, reqGroups);
    var kept := Filter(tcs, keep);
    assert forall i :: 0 <= i < |kept| ==> keep(kept[i]);
    assert forall i :: 0 <= i < |tcs| && keep(tcs[i]) ==> tcs[i] in kept;
    Success(kept)
  }

  /** A single well-formed script parses to its one testcase. */
  lemma ParseOne(path: string, text: string)
    requires GetTestcase(path, text).Success?
    ensures ParseAll([(path, text)]) == Success([GetTestcase(path, text).value])
  {
    var scripts := [(path, text)];
    assert scripts[1..] == [];
    assert ParseAll(scripts[1..]) == Success([]);
    assert [GetTestcase(path, text).value] + [] == [GetTestcase(path, text).value];
  }

  /** Parsing a concatenation of script lists parses each part in turn. */
  lemma ParseAllAppend(a: seq<(string, string)>, b: seq<(string, string)>)
    requires ParseAll(a + b).Success?
    ensures ParseAll(a).Success? && ParseAll(b).Success?
    ensures ParseAll(a + b).value == ParseAll(a).value + ParseAll(b).value
  {
    ParseEachAppend(a, b, ParseScript);
  }

  /** `get_tests` keeps input order and multiplicity: the selection from a
      concatenation is the concatenation of the selections. */
  lemma GetTestsAppend(a: seq<(string, string)>, b: seq<(string, string)>, reqGroups: seq<string>)
    requires GetTests(a + b, reqGroups).Success?
    ensures GetTests(a, reqGroups).Success? && GetTests(b, reqGroups).Success?
    ensures GetTests(a + b, reqGroups).value == GetTests(a, reqGroups).value + GetTests(b, reqGroups).value
  {
    ParseAllAppend(a, b);
    FilterAppend(ParseAll(a).value, ParseAll(b).value, tc => HasUnrequestedGroup(tc, reqGroups));
  }

  /** One script is selected, once, exactly when it has a group outside the
      request. */
  lemma GetTestsOne(path: string, text: string, reqGroups: seq<string>)
    requires GetTestcase(path, text).Success?
    ensures var tc := GetTestcase(path, text).value;
            GetTests([(path, text)], reqGroups) == Success(if HasUnrequestedGroup(tc, reqGroups) then [tc] else [])
  {
    ParseOne(path, text);
    var tc := GetTestcase(path, text).value;
    assert [tc][1..] == [];
  }

  /** The intended selection keeps input order and multiplicity too. */
  lemma GetTestsIntendedAppend(a: seq<(string, string)>, b: seq<(string, string)>, reqGroups: seq<string>)
    requires GetTestsIntended(a + b, reqGroups).Success?
    ensures GetTestsIntended(a, reqGroups).Success? && GetTestsIntended(b, reqGroups).Success?
    ensures GetTestsIntended(a + b, reqGroups).value
            == GetTestsIntended(a, reqGroups).value + GetTestsIntended(b, reqGroups).value
  {
    ParseAllAppend(a, b);
    FilterAppend(ParseAll(a).value, ParseAll(b).value, tc => InRequestedGroup(tc, reqGroups));
  }

  /** One script is selected, once, exactly when it is in a requested group. */
  lemma GetTestsIntendedOne(path: string, text: string, reqGroups: seq<string>)
    requires GetTestcase(path, text).Success?
    ensures var tc := GetTestcase(path, text).value;
            GetTestsIntended([(path, text)], reqGroups) == Success(if InRequestedGroup(tc, reqGroups) then [tc] else [])
  {
    ParseOne(path, text);
    var tc := GetTestcase(path, text).value;
    assert [tc][1..] == [];
  }

  /** The discrepancy: asking for group `C13` drops tests/test5.py, which is
      in exactly that group, while the intended selection keeps it. */
  lemma RequestedGroupDropped()
    ensures GetTests([("tests/test5.py", "#group-C13 : enabled\n")], ["C13"]) == Success([])
    ensures GetTestsIntended([("tests/test5.py", "#group-C13 : enabled\n")], ["C13"])
            == Success([Testcase("tests/test5.py", ["C13"], false, NotRunText)])
  {
    var tc := Testcase("tests/test5.py", ["C13"], false, NotRunText);
    Test5Groups();
    ParseOne("tests/test5.py", "#group-C13 : enabled\n");
    assert !HasUnrequestedGroup(tc, ["C13"]);
    assert InRequestedGroup(tc, ["C13"]) by { assert tc.groups[0] in ["C13"]; }
    assert [tc][1..] == [];
  }
}
