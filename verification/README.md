# easytest sync core in Dafny

easytest runs test scripts on remote machines and follows their progress from
a control host. Each machine runs an **agent** (`utils/remoterun.py`). The
agent executes the scripts one by one and sends a progress report
(`SyncMsg`) over an SSH channel to the **daemon** on the control host. The
agent then waits for the matching acknowledgement (`AckMsg`) and resends the
report up to three times. The daemon (`SSHServer.process_msg` in
`utils/ssh.py`) hands every frame to its message handler. The model takes that
handler to be `ResultMgr.sync_result`, the only one whose signature fits (see
"Left out"). It records the script's status in the result table, recognises
the completion report (script `all`, status `Finished`) and answers with the
acknowledgement.
Before all this, `utils/testsetmgr.py` picks the test scripts from their
`#group-<name> : enabled` directives. `utils/envmgr.py` copies them to a
fresh `/local/test_<random>` directory on each machine. `utils/args.py` checks
the command line.

The model is purely functional:

- `Wrappers` holds `Option`, `Result` and `Outcome`.
- `Errors` holds the exceptions as values.
- `Text` holds Python's `str.split`, `str.strip` (with the `isspace` set), `str(n)` and their properties.
- `Message` models the `key value\n` frame codec and message ids.
- `Testset` models script directives and test selection.
- `ResultMgr` models the daemon's result table.
- `Agent` models the retry loop (including a read that never returns), report building, `--sync`/`--server` and the main loop.
- `Ssh` models one dispatch pass over an abstract channel registry, shutdown, the send/receive guards and authentication.
- `Args` models selection validation.
- `EnvMgr` models directory naming and deployment operations.
- `Protocol` holds end-to-end lemmas that join the agent, the daemon's pass and the result table.

Randomness, the channel's replies and script file contents are parameters.

## Model

| member | source | states |
|---|---|---|
| Message.BuildMsg | utils/message.py:9-13 | a frame is empty exactly when there are no fields, and a non-empty frame ends with a line break |
| Message.BuildMsgLines | utils/message.py:9-13 | splitting a frame at line breaks gives one `key value` line per field, in field order, then an empty tail |
| Message.ParseLine | utils/message.py:25-28 | a line of length at most 2 is skipped; a longer line is accepted exactly when it holds one space, and otherwise the unpacking raises |
| Message.ParseMsg | utils/message.py:16-30 | the result is None exactly when the text lacks a line break or a space; every failure is an unpacking error |
| Message.ParseLaterKeyWins | utils/message.py:23-28 | of two lines with the same key, the later value is kept |
| Message.RoundTrip | utils/message.py:9-30 | parsing a built frame gives back the fields as a map, for non-empty fields of single words whose lines are longer than 2 characters |
| Message.NextId | utils/message.py:47-54 | the first id lies in [5001, 50001]; every later id is the previous one plus one |
| Message.MintIdsConsecutive | utils/message.py:47-54 | successive ids from one counter increase by exactly one |
| Message.SyncValLines | utils/message.py:44 | a report frame is exactly the lines `sync`, `script`, `status`, in that order |
| Message.AckValLines | utils/message.py:66-68 | an acknowledgement frame is exactly the line `ack <id>` |
| Message.FromMsg | utils/message.py:57-64 | decoding succeeds exactly when the frame parses to a map holding `sync`, `script` and `status`; it keeps the three values; `final_msg` is set exactly for script `all` with status `Finished` |
| Message.SyncRoundTrip | utils/message.py:39-64 | decoding an encoded report gives the report back, with `final_msg` recomputed from script and status |
| Testset.NewTestcase | utils/testsetmgr.py:18-22 | a new testcase has the given path, no groups, parallel false and result `'NotRun'` |
| Testset.MatchGroupLine | utils/testsetmgr.py:85-98 | `#group-<name>:<value>` with a colon-free value yields the stripped name and the stripped value |
| Testset.LastColonIs | utils/testsetmgr.py:85 | the greedy group of the pattern ends at the last colon that is followed by a character |
| Testset.MatchParallelSpec | utils/testsetmgr.py:86 | the parallel pattern matches exactly when only white space separates `#parallel` from a colon that is not the last character; the value is the stripped text after that colon |
| Testset.ScanLine | utils/testsetmgr.py:92-115 | a line is accepted exactly when it is not a non-matching group line, not a second `#parallel` line and, as written, not a matching `#parallel` line; on success the enabled group is appended and the flag set from a matching `#parallel` value; as written a matching `#parallel` line raises `AttributeError` |
| Testset.ScanLineCases | utils/testsetmgr.py:94-115 | per-line cases: a malformed directive raises, a non-`enabled` state adds nothing, a repeated `#parallel` raises, a first non-matching `#parallel` only marks one as seen, a first matching one raises as written and sets the flag as intended, any other line changes nothing |
| Testset.ScanLines | utils/testsetmgr.py:92-115 | the loop accepts the lines exactly when every group line is well formed, at most one `#parallel` line occurs and, as written, none matches the pattern; every failure is `MalformedScriptError` for the path or, as written, `AttributeError` |
| Testset.ScanLinesValue | utils/testsetmgr.py:92-115 | an accepted loop appends the enabled groups in file order, sets the flag the `#parallel` line says and records whether one was seen |
| Testset.GetTestcase | utils/testsetmgr.py:67-117 | with the intended lower-casing: a script parses exactly when all its group lines match and it has at most one `#parallel` line; the testcase holds the path, the enabled groups in file order, the flag the `#parallel` value sets (false without one) and result `NotRun` |
| Testset.GetTestcaseAsWritten | utils/testsetmgr.py:67-117 | as written: a script parses exactly when, in addition, no `#parallel` line matches the pattern; its flag is then always false; failures are `MalformedScriptError` or `AttributeError` |
| Testset.GetTestcaseAgrees | utils/testsetmgr.py:112-115 | a script with no matching `#parallel` line parses the same way as written and as intended |
| Testset.ParallelDirective | utils/testsetmgr.py:106-115 | a script made of the documented `#parallel : <value>` line raises `AttributeError` as written; as intended it parses with no groups and the flag set to whether the stripped value lower-cases to `true` |
| Testset.ParallelTrueDirective | utils/testsetmgr.py:80-81 | the docstring's `#parallel : true` raises as written and makes the test parallel as intended |
| Testset.Test5Groups | tests/test5.py:3 | the directive of the sample script puts it in group `C13` |
| Testset.Filter | utils/testsetmgr.py:53-61 | the kept tests are exactly the candidates passing the test, in input order |
| Testset.FilterAppend | utils/testsetmgr.py:58-61 | filtering preserves the order of the candidates |
| Testset.ParseEachSpec | utils/testsetmgr.py:58-59 | parsing a list succeeds exactly when every script parses, and then yields their testcases one for one, in order; a failure is the error of one of the scripts |
| Testset.ParseAll | utils/testsetmgr.py:50-59 | every candidate is parsed in order, one testcase per script; a malformed script raises `MalformedScriptError` |
| Testset.ParseAllAppend | utils/testsetmgr.py:58-59 | parsing a concatenation of script lists gives the concatenation of their testcases |
| Testset.GetTests | utils/testsetmgr.py:42-64 | as written: succeeds exactly when every candidate parses; keeps only tests with a group outside the requested ones, and every such test |
| Testset.GetTestsAppend | utils/testsetmgr.py:50-61 | as written, the selection keeps input order and multiplicity: the selection of a concatenation is the concatenation of the selections |
| Testset.GetTestsOne | utils/testsetmgr.py:53-54 | as written, one script is selected once exactly when it has a group outside the request, and not at all otherwise |
| Testset.GetTestsIntended | utils/testsetmgr.py:43-44 | as the docstring says: succeeds exactly when every candidate parses; keeps only tests in a requested group, and every such test |
| Testset.GetTestsIntendedAppend | utils/testsetmgr.py:43-44 | the intended selection keeps input order and multiplicity too |
| Testset.GetTestsIntendedOne | utils/testsetmgr.py:43-44 | with the intended selection, one script is selected once exactly when it is in a requested group |
| Testset.RequestedGroupDropped | utils/testsetmgr.py:53-54 | asking for group `C13` drops the sample script, which the intended filter keeps |
| ResultMgr.FromValue | utils/resultmgr.py:16-22 | a status string names a member exactly when it is one of the six values |
| ResultMgr.FromValueOfValue | utils/resultmgr.py:16-22 | the six values are distinct and each looks up its own member |
| ResultMgr.Init | utils/resultmgr.py:27-34 | `tests_done` starts false and the table holds exactly the scripts of the testcases |
| ResultMgr.InitResultsLastWins | utils/resultmgr.py:32-34 | each script maps to the initial result of the last testcase naming it |
| ResultMgr.InitTotal | utils/resultmgr.py:66-67 | the total of a fresh table is the number of distinct scripts |
| ResultMgr.Update | utils/resultmgr.py:51-61 | an unknown status raises `IllegalResultError`; a known one is stored for a held script and ignored for others; nothing else changes |
| ResultMgr.UpdateIdempotent | utils/resultmgr.py:59-60 | repeating a report changes nothing |
| ResultMgr.UpdateLastWins | utils/resultmgr.py:59-60 | the later of two reports for one script wins, with no ordering check |
| ResultMgr.UpdateCommutes | utils/resultmgr.py:59-60 | reports for different scripts commute |
| ResultMgr.SyncResult | utils/resultmgr.py:36-49 | the reply is the acknowledgement of the report's id; `tests_done` becomes "this was the sentinel"; the sentinel leaves the table alone; other reports update it; errors raise before any reply |
| ResultMgr.CountAsWritten | utils/resultmgr.py:63-64 | as written, a count is zero exactly when no entry is the enum member, and it never exceeds the intended count |
| ResultMgr.Count | utils/resultmgr.py:63-64 | with the intended comparison, a count is zero exactly when no entry is the member or its value string |
| ResultMgr.CountAsWrittenAgrees | utils/resultmgr.py:59-64 | on a table of enum members, which is all `update` stores, the as-written count equals the intended one |
| ResultMgr.Total | utils/resultmgr.py:66-67 | the total is zero exactly for an empty table |
| ResultMgr.CountBounded | utils/resultmgr.py:63-67 | with the intended comparison, no count exceeds the total |
| ResultMgr.UpdateCounts | utils/resultmgr.py:59-64 | with the intended comparison, a report moves one script from its old count to its new one and keeps the total |
| ResultMgr.CountsSumToTotal | utils/resultmgr.py:63-85 | with the intended comparison, when every entry is a result the six counts add up to the total |
| ResultMgr.CountsSumToTotalAsWritten | utils/resultmgr.py:63-85 | as written, on a table of enum members the six counts add up to the total |
| ResultMgr.SummaryInjective | utils/resultmgr.py:87-91 | the `info_fmt` text determines the six numbers it shows |
| ResultMgr.InfoAsWritten | utils/resultmgr.py:87-91 | the source's summary: on a table of enum members it shows the intended counts; on a table of initial strings, as `__init__` builds it, it shows the total and five zeros |
| ResultMgr.Info | utils/resultmgr.py:87-91 | the summary with the intended comparison reads the same as the source's exactly when the six numbers agree |
| ResultMgr.InfoAgrees | utils/resultmgr.py:87-91 | on a table of enum members both summaries read the same |
| ResultMgr.InfoDeterminesCounts | utils/resultmgr.py:87-91 | with the intended comparison, the summary line determines the total and the five counts it reports |
| ResultMgr.DefaultResultIsNotRun | utils/testsetmgr.py:18 | the default result of a testcase is the value of `TestResult.NOTRUN`, so `TestResult(...)` reads it as that member, but the string itself is not the member |
| ResultMgr.InitResultsNotRun | utils/resultmgr.py:32-34 | a table built from testcases nobody has run holds the string `'NotRun'` for every script |
| ResultMgr.FreshAllNotRun | utils/resultmgr.py:63-64 | with the intended comparison a fresh table counts every test as not run; as written it counts none |
| ResultMgr.UntouchedNotCounted | utils/resultmgr.py:63-91 | as written, a test nobody reported on counts as no status, though it is `NotRun`, so the two summaries of a fresh table of one test differ |
| Agent.Notify | utils/remoterun.py:48-61 | at most four sends; passes exactly when one of the first three replies is the acknowledgement, and then stops at it; blocks exactly when the reply to its last send never comes; raises only after four answered sends |
| Agent.NotifyUnanswered | utils/remoterun.py:52-53 | with a daemon that never answers, the request is sent once and `notify` waits for ever in its first read |
| Agent.NotifyRaisesAnswered | utils/remoterun.py:54-61 | `notify` raises exactly when four replies come and none of the first three is the acknowledgement |
| Agent.NotifyFirstReply | utils/remoterun.py:52-54 | a correct first reply means one send and no error |
| Agent.NotifyIntended | utils/remoterun.py:54-61 | the intended loop passes exactly when one of the four replies is the acknowledgement |
| Agent.NotifyAgrees | utils/remoterun.py:54-61 | both loops send equally often and differ exactly when only the reply to the last resend matches |
| Agent.LastRetryIgnored | utils/remoterun.py:59-61 | three wrong replies then the right one: four sends and an error as written, success as intended |
| Agent.RenderRoundTrip | utils/resultmgr.py:52-54 | a status sent as its value is read back as the same member |
| Agent.RenderAsWrittenIllegal | utils/message.py:12 | a status formatted as the enum member is no valid value |
| Agent.NewReport | utils/remoterun.py:38-41 | the expected acknowledgement carries the id of the outgoing report; the id is freshly minted |
| Agent.UpdateTestProgress | utils/remoterun.py:38-41 | with the corrected rendering: the report names the script and a status the daemon reads back as that member, and the agent waits for the acknowledgement of its id |
| Agent.UpdateTestProgressAsWritten | utils/remoterun.py:38-41 | as written: the report's status is no member's value |
| Agent.NotifyTestDone | utils/remoterun.py:43-46 | the completion report is the sentinel `all`/`Finished` |
| Agent.NotifyTestDoneAsWritten | utils/remoterun.py:43-46 | as written, the completion report is neither the sentinel nor a valid status |
| Agent.CheckSyncArgs | utils/remoterun.py:77-78 | the agent exits exactly when exactly one of `--sync` and a non-empty `--server` is given |
| Agent.MainLoopReports | utils/remoterun.py:91-101 | the reports the loop means to send: each script `Running`, then `Finished` or `Failed` by its outcome; the completion report last |
| Agent.MainLoopSentinelLast | utils/remoterun.py:91-101 | no report before the last is the completion report |
| Agent.RunReports | utils/remoterun.py:91-101 | reports go out in order while each `notify` is acknowledged; the first one that raises or blocks is the last sent and ends the run |
| Agent.MainLoop | utils/remoterun.py:91-101 | the reports sent are a prefix of the intended sequence |
| Agent.MainLoopCompletion | utils/remoterun.py:91-101 | the completion report goes out exactly when every report before it was acknowledged |
| Ssh.GuardedSend | utils/ssh.py:140-142 | a frame is sent only on an existing, send-ready channel, and nothing else about the channel changes |
| Ssh.ClientRecv | utils/ssh.py:99-103 | no channel gives None; an open channel with nothing pending blocks; otherwise a non-empty prefix of the pending input is read and the rest stays, with nothing else changed |
| Ssh.ClientRecvReply | utils/ssh.py:99-103 | a pending reply that fits in one read is returned whole |
| Ssh.Read | utils/ssh.py:155 | a read takes at most 2048 characters from the front of the input and keeps the rest |
| Ssh.DispatchPass | utils/ssh.py:144-159 | after a pass that completes only active transports remain, and `need_sleep` holds exactly when nothing was delivered; a pass ended by an exception has handed the handler at least the message that raised |
| Ssh.PassAppend | utils/ssh.py:148-157 | a pass over two parts of the registry is the pass over the first, then, unless it raised, the pass over the second from the state reached; an exception leaves the second part as it was and keeps everything the first part did |
| Ssh.PassHandlesReady | utils/ssh.py:153-157 | the handler receives a prefix of the ready channels' messages in registry order; the pass completes exactly when handling all of them in turn does, then ends in that state having delivered all of them, and otherwise ends with the exception that handling raises |
| Ssh.PassKeepsActiveInOrder | utils/ssh.py:148-151 | a pass that completes keeps exactly the active transports, in order |
| Ssh.PassKeepsActive | utils/ssh.py:148-157 | a transport is in the registry after a pass that completes exactly when it was active before |
| Ssh.PassOneMessage | utils/ssh.py:153-157 | one ready channel with a short message: it is delivered whole and the reply goes out on that channel |
| Ssh.PassOneMessageRaises | utils/ssh.py:153-157 | one ready channel whose message the handler rejects: the message is read, the pass ends with the handler's exception, nothing is sent and the handler's state is unchanged |
| Ssh.PassAnswersThenRaises | utils/ssh.py:148-157 | two ready channels, the second message rejected: the first channel keeps its reply and the state the first message left, the second is read without a reply, and the pass ends with the exception |
| Ssh.Shutdown | utils/ssh.py:167-172 | shutdown closes exactly the active transports, in order, and empties the registry |
| Ssh.CheckAllowedAuths | utils/ssh.py:204-208 | password authentication exactly for `easytestagent`, none for anyone else |
| Ssh.CheckAuthPassword | utils/ssh.py:210-214 | success exactly for the built-in user and password, and only for a user offered password authentication |
| Ssh.CheckAuthPublickey | utils/ssh.py:216-217 | public-key authentication always fails |
| Ssh.AuthConsistent | utils/ssh.py:68-69 | the client's default credentials authenticate; a user offered nothing cannot log in |
| Args.ValidateArgs | utils/args.py:8-13 | passes exactly when one of `--test` and `--group` is given; neither and both raise with their own reasons |
| Args.ValidateSelectionOnly | utils/args.py:8-13 | the verdict depends only on which options are present |
| EnvMgr.UniqueName | utils/envmgr.py:18-22 | the name is the prefix, 8 lower-case letters and 4 digits, of length `len(prefix) + 12` |
| EnvMgr.UniqueNameInjective | utils/envmgr.py:18-22 | different draws give different names |
| EnvMgr.Basename | utils/envmgr.py:71 | the base name contains no `/` and is no longer than the path |
| EnvMgr.BasenameSuffix | utils/envmgr.py:71 | the base name is the whole tail of the path after its last `/` |
| EnvMgr.FileOps | utils/envmgr.py:70-73 | each file gives exactly two operations |
| EnvMgr.FileOpsInDir | utils/envmgr.py:70-73 | every put and chmod targets a file directly inside the remote directory, on the session's server |
| EnvMgr.FileOpsOrder | utils/envmgr.py:70-73 | file `i` is put and then made mode 755 at positions `2i` and `2i+1`, under its base name |
| EnvMgr.ServerOps | utils/envmgr.py:69-73 | one server: make the directory, then put and chmod 755 each file into it, in order |
| EnvMgr.DeployTests | utils/envmgr.py:56-75 | the returned directory is `/local/test_` plus 12 characters; each server gets one session |
| EnvMgr.DeployOps | utils/envmgr.py:65-73 | the first server's whole session comes before any other server's |
| EnvMgr.DeployOpsLength | utils/envmgr.py:65-73 | every server gets the same number of operations, one plus two per file |
| EnvMgr.DeployOneDirectory | utils/envmgr.py:65-73 | every operation on every server creates the one directory or acts on a file directly inside it |
| EnvMgr.DeployTestsOneDirectory | utils/envmgr.py:61-75 | the directory returned is the one every server's operations use |
| Protocol.ReportAccepted | utils/resultmgr.py:36-49 | with the corrected rendering, a progress report is recorded and answered with the acknowledgement the agent expects, which the agent accepts at once |
| Protocol.CompletionAccepted | utils/resultmgr.py:39-49 | the completion report sets `tests_done`, leaves the table alone and is acknowledged |
| Protocol.CompletionRejectedAsWritten | utils/remoterun.py:43-46 | as written, the completion report makes the daemon raise `IllegalResultError` and its pass end before any reply, so the agent sends once and waits for ever |
| Protocol.ReportRejectedAsWritten | utils/remoterun.py:38-41 | as written, the first progress report of a run makes the daemon's pass raise before any reply, so the agent sends once and waits for ever |
| Protocol.CompletionAsWrittenDecodes | utils/message.py:57-64 | the daemon decodes the as-written completion report to the message the agent built |
| Protocol.AsWrittenReportDecodes | utils/message.py:57-64 | the daemon decodes an as-written report to the same message, with the status `TestResult.<NAME>` |
| Protocol.AsWrittenReportRaises | utils/resultmgr.py:51-57 | the daemon raises `IllegalResultError` on an as-written report, whether it tracks the script or not |
| Protocol.DaemonAnswersReport | utils/ssh.py:153-157 | with the corrected rendering, a daemon pass over a channel holding a report records it and sends back exactly the expected acknowledgement |

## Left out

- Threads, locks, sockets, sleeping and the paramiko transports are left out. So are `execute`, `handle_connect_req`, the repetition of the `process_msg` loop and its exit flag. One pass and the shutdown step are modelled; messages arriving between passes are not. An exception from the handler ends the pass where it was raised, keeping everything done before it; that it also ends the dispatch thread, so that no later pass happens, is not modelled.
- Ssh.ClientRecv has no closed channel: a read on a closed paramiko channel returns an empty string at once instead of blocking. Nothing in the modelled code closes the agent's channel while it waits.
- `SftpClient`, `SSSHClient`, `SSHClient.connect` and `close` are left out: they open connections. `close` also reads the misspelt attribute `ransport` (utils/ssh.py:91).
- `deploy_agents` is left out: it copies the framework itself and only ever uses one fixed directory.
- `get_banner`, `check_channel_request` and `enable_auth_gssapi` return constants and are left out.
- Terminal output is left out: the `progress_mgr` calls and the summary print in `sync_result` are dropped. The summary text itself is modelled, as `ResultMgr.InfoAsWritten` and `ResultMgr.Info`.
- ResultMgr.Info uses the intended comparison of `count`. The source's summary is `ResultMgr.InfoAsWritten`; the two read the same exactly when their numbers agree, which holds on every table of enum members but not on a fresh one.
- ResultMgr.CountBounded is stated for the intended `count`; it carries over to the source's `count` through `CountAsWritten`'s bound.
- ResultMgr.UpdateCounts is stated for the intended `count`; the source's `count` ignores the initial `'NotRun'` strings, so a first report on a script moves nothing out of `not_run` there.
- ResultMgr.CountsSumToTotal is stated for the intended `count`; for the source's `count` the sum holds only on tables of enum members (`CountsSumToTotalAsWritten`).
- ResultMgr.InfoDeterminesCounts is stated for the intended summary; `SummaryInjective` gives the same for the source's numbers.
- The daemon's handler: `TestMgr` registers `SyncMsg.ack_msg` (utils/testmgr.py:24), which does not exist. The model assumes the handler is `ResultMgr.sync_result`, whose arguments and reply fit the dispatch loop.
- Randomness and time are parameters: the message-id seed draw, the letters and digits of the unique name. Frames are strings, not UTF-8 bytes, and the 2048-byte read limit is counted in characters.
- File reading, globbing and path normalisation are left out: a script is given as its path and its text. The `text` parameter is the file's content as text mode reads it, after universal-newline translation. Reading it line by line is modelled by splitting it at `\n`. That is equivalent for the directives, because the pattern's `.` stops at `\n` and `strip` removes it. Raw text holding `\r\n` would differ: the model accepts `"#group-A :\r\n"` (the `.+` takes the `\r`), while Python reads `#group-A :` and raises `MalformedScriptError`.
- Testset.GetTestcase lower-cases only the ASCII letters of the `#parallel` value, where `str.lower` would lower-case every letter; the result differs only for values that are `true` in some non-ASCII case mapping.
- Testset.GetTestcase takes `set_parallel`, which `Testcase` lacks (utils/testsetmgr.py:115), to mean its `setParallel`.
- Testset.ScanLine and Testset.ScanLineCases, read as written, raise `AttributeError` on the first `#parallel` line that matches the pattern, because `str.tolower` does not exist (utils/testsetmgr.py:114). That includes the documented `#parallel : true`; see "Findings".
- Testset.NewTestcase gives every testcase its own empty group list. The shared mutable default of utils/testsetmgr.py:18 would pile all groups onto one list.
- Testset.GetTests takes the requested groups as a list. When tests are named on the command line, `req_groups` is None and `set(None)` raises. It parses each script with the corrected `Testset.GetTestcase`; with `GetTestcaseAsWritten` every script with a matching `#parallel` line would raise instead.
- ResultMgr.Init keys the table on each testcase's `script`. The source reads `testcase.relpath` (utils/resultmgr.py:33), which `Testcase` lacks.
- Agent.Notify reads a fresh reply on every resend. As written, line 56 passes the old reply to `recv`, which takes no argument.
- Agent.Notify raises `SessionBroken`. The source misspells the class (utils/remoterun.py:61), which would raise a `NameError` instead.
- Agent.UpdateTestProgress takes the script as a parameter. The source reads the module-level loop variable `testscript` (utils/remoterun.py:39).
- Agent.MainLoop takes how each report's `notify` ends as a parameter rather than computing it with `Agent.Notify` from that report's replies; the ids minted per report are not threaded through the loop. Agent.MainLoopReports alone lists the reports as if every `notify` passed.
- Agent.MainLoopReports covers the `--sync` mode only. Without it the agent is None and the first report crashes (utils/remoterun.py:93). The final call is to `notify_tests_done`, a name that does not exist (utils/remoterun.py:101); it is modelled as `notify_test_done`.
- Testset.MatchGroupLine characterises the directive pattern only when the value part has no colon. Other lines are handled by `MatchGroup` and `LastColonIs` without a closed-form statement.
- Message.RoundTrip needs keys and values of single words with lines longer than two characters. Other fields cannot be read back by the source either.

## Findings

| source | as written | input that shows it | evidently intended | confidence | as-written member | corrected member |
|---|---|---|---|---|---|---|
| utils/remoterun.py:59-61 | the failure test looks only at the retry counter, so the reply to the third resend is never accepted | replies: three wrong ones, then the acknowledgement | fail only when no reply matched | not executed | Agent.Notify | Agent.NotifyIntended |
| utils/message.py:12 | statuses are passed as enum members, so reports carry `TestResult.RUNNING` and the like; only the first report is handled: the daemon raises `IllegalResultError` on it, its pass ends before any reply, and the agent waits for ever in its first read | the first `Running` report of a run, or the completion report of `notify_test_done` | send the member's value (`Running`, `Finished`, ...) | not executed | Agent.UpdateTestProgressAsWritten, Agent.NotifyTestDoneAsWritten, Protocol.ReportRejectedAsWritten | Agent.UpdateTestProgress, Agent.NotifyTestDone, Protocol.ReportAccepted |
| utils/testsetmgr.py:53-54 | `set(groups) - set(req_groups)` keeps tests that have a group outside the request | tests/test5.py, in group `C13` only, with `--group C13`: dropped | keep tests in a requested group, as the docstring says | not executed | Testset.GetTests | Testset.GetTestsIntended |
| utils/resultmgr.py:63-64 | the table starts with the string `'NotRun'`, which never equals the enum member, so tests nobody reported on are left out of `not_run` | one test, no reports: total 1, not_run 0 | count the initial `'NotRun'` as not run | not executed | ResultMgr.UntouchedNotCounted | ResultMgr.FreshAllNotRun |
| utils/testsetmgr.py:114 | the value of a matching `#parallel` line is lower-cased with `str.tolower`, which does not exist, so the first such line raises `AttributeError` | a script of the documented line `#parallel : true` | lower-case with `str.lower` and set the flag to whether the value is `true` | not executed | Testset.GetTestcaseAsWritten, Testset.ParallelTrueDirective | Testset.GetTestcase |
