# Online judge: the judging core in Dafny

This project models the decision logic of an online judge's backend. The judge
runs a submitted program against a problem's test cases, turns what happened into a
verdict, credits leaderboard points and runs timed contests. In detail:

- `executeCode`:
  - prepares the input: a missing final newline is added;
  - picks a container image from the language, ignoring case and rejecting unknown
    languages;
  - decodes the container's multiplexed log stream. Each frame is an 8-byte header,
    whose last four bytes are a big-endian payload length, followed by the payload.
- `evaluateSubmission` and the queue worker share one verdict rule:
  - outputs are compared after whitespace normalisation;
  - the loop over the test cases counts matches, marks a mismatch as Wrong Answer and
    keeps going;
  - the first execution error stops the loop and is classified by its text: timeout,
    then compilation, else runtime;
  - a final downgrade step follows;
  - an Accepted, non-practice problem credits `points || 100` to the user's
    leaderboard entry.
  - The worker also reports progress values after each case that ran.
- `GET /stats/:userId` computes per-user statistics, and `POST /` checks the request
  fields before queueing a submission.
- The contest routes cover:
  - registration within the contest window;
  - the eligibility checks of a contest submission;
  - the contest leaderboard: one row per user, each (user, problem) pair counted once,
    ranked by points and then by the time of the latest first solve.

Modules, one file each:

- `Wrappers`, `Seqs`: utilities.
- `Text`: ASCII `toLowerCase` and `includes`.
- `Request`: JSON field values and truthiness.
- `Normalize`: `normalizeOutput`.
- `Execute`: `executeCode`.
- `Judge`: the verdict rules as functions.
- `Store`: the submission, leaderboard and queue documents as classes.
- `Submissions`: `evaluateSubmission`, statistics and `POST /`.
- `Worker`: the queue processor.
- `Contest`: registration and submission.
- `Standings`: the contest leaderboard.

How the source is modelled:

- **Executor.** It is a function value from (code, language, input) to `Ok(output)` or
  `Err(message)`. `Judge.Docker` builds it from `Execute.Execution` over an abstract
  container `Backend`.
- **Loops.** The source's loops are `while` loops proved against specification
  functions: `Judge.Scan`, `Execute.Payloads`, `Standings.StatsOf`, `Worker.ProgressTrace`.
- **Mutated documents.** Submissions, leaderboard totals, the queue, a queue job's
  progress and a contest's participants are class fields that the methods update.
- **Clock and caller.** The clock (`now`), the caller's identity and any database id
  are parameters.
- **Stored collections.** They are sequences: the problem catalogue, the submissions a
  query returns, a contest's problems.

## Model

| member | source | states |
|---|---|---|
| Execute.PrepareInput | backend/compilerBackend/executeCode.js:118 | empty input stays empty; otherwise the result is the input followed by at most one `'\n'` and ends in `'\n'`; it equals the input exactly when the input is empty or already ends in `'\n'` |
| Execute.PrepareInputIdempotent | backend/compilerBackend/executeCode.js:118 | applying the fix-up twice is applying it once |
| Execute.ImageName | backend/compilerBackend/executeCode.js:123-141 | every image name starts with `onlinejudge-` |
| Execute.ImageFor | backend/compilerBackend/executeCode.js:120-148 | the result is `Some(img)` exactly when the lower-cased language is one of `img`'s names (python/python3, java, cpp/c++, c), and `None` exactly when no image has that name |
| Execute.ImageForIgnoresCase | backend/compilerBackend/executeCode.js:120 | the lookup depends only on the lower-cased name |
| Execute.ImageForMixedCase | backend/compilerBackend/executeCode.js:120-139 | `Python3` reaches the python image and `C++` the cpp image |
| Execute.ImageForUnknown | backend/compilerBackend/executeCode.js:146-147 | `Go` has no image |
| Execute.ReadUInt32BE | backend/compilerBackend/executeCode.js:207 | the big-endian value of four bytes is below 2^32 |
| Execute.ReadEncodeUInt32BE | backend/compilerBackend/executeCode.js:207 | reading back an encoded length gives the length |
| Execute.EncodeReadUInt32BE | backend/compilerBackend/executeCode.js:207 | encoding a read length gives back the four header bytes |
| Execute.Decode | backend/compilerBackend/executeCode.js:210 | one character per payload byte, with that byte's code |
| Execute.DecodeAllSnoc | backend/compilerBackend/executeCode.js:210 | one more payload appends its decoding to the output |
| Execute.PayloadsAtFrame | backend/compilerBackend/executeCode.js:206-211 | a frame that starts at `i` and fits the buffer is the next payload, and reading resumes right after it |
| Execute.PayloadsAtEnd | backend/compilerBackend/executeCode.js:212-217 | where fewer than 8 bytes remain or the declared length overruns the buffer, nothing more is read |
| Execute.ConsumeFrame | backend/compilerBackend/executeCode.js:207-211 | one loop turn moves exactly one payload from the unread part to the consumed part |
| Execute.Demultiplex | backend/compilerBackend/executeCode.js:203-218 | the loop ends and its output is the in-order decoding of the payloads of the maximal run of complete frames |
| Execute.DecodeLogs | backend/compilerBackend/executeCode.js:199-221 | a buffer gives its decoded payloads and non-buffer logs are returned whole |
| Execute.PayloadsOfEncodedFrame | backend/compilerBackend/executeCode.js:206-211 | reading an encoded frame gives its payload and leaves the rest, whatever its first four header bytes are |
| Execute.PayloadsOfEncoded | backend/compilerBackend/executeCode.js:204-211 | de-framing encoded frames gives back their payloads, so stdout and stderr frames are both kept |
| Execute.Decompose | backend/compilerBackend/executeCode.js:204-218 | every buffer is a run of complete frames followed by a tail that holds no whole frame, and its payloads are those frames' payloads |
| Execute.IncompleteTailDropped | backend/compilerBackend/executeCode.js:206-216 | a truncated or overlong trailing frame adds nothing |
| Execute.ZeroPrefixFrame | backend/compilerBackend/executeCode.js:206-211 | a zero-prefixed frame of length `n` yields its `n`-byte payload first |
| Execute.TwoZeroPrefixFrames | backend/compilerBackend/executeCode.js:204-211 | two zero-prefixed frames yield their two payloads in order |
| Execute.HelloWorldPayloads | backend/compilerBackend/executeCode.js:204-211 | the frames `[0,0,0,0,0,0,0,5]"hello"` then `[0,0,0,0,0,0,0,6]"world!"` yield those two payloads |
| Execute.HelloWorldText | backend/compilerBackend/executeCode.js:210 | those two payloads decode to `helloworld!` |
| Execute.HelloWorldFrames | backend/compilerBackend/executeCode.js:199-221 | the logs made of those two frames give the output `helloworld!` |
| Execute.ExecuteCode | backend/compilerBackend/executeCode.js:115-228 | the result is the specification `Execution`: an unsupported language fails before any backend run, a backend failure passes its text on, and otherwise the output is the decoded logs |
| Execute.UnsupportedNeverRuns | backend/compilerBackend/executeCode.js:146-153 | for an unknown language the outcome is `Unsupported language` whatever the backend would do |
| Text.LowerChar | backend/submissions/submissionRoutes.js:51 | capital ASCII letters map to their small letters; everything else is kept; no capital remains |
| Text.ToLower | backend/submissions/submissionRoutes.js:51 | same length, lower-cased character by character |
| Text.ToLowerIdempotent | backend/submissions/submissionRoutes.js:51 | lower-casing twice is lower-casing once |
| Text.ToLowerAppend | backend/submissions/submissionRoutes.js:51 | lower-casing distributes over concatenation |
| Text.ContainsAt | backend/submissions/submissionRoutes.js:52 | the recursive `includes` holds exactly when the text occurs at some index |
| Text.ContainsSuffix | backend/submissions/submissionRoutes.js:52 | a string includes each of its suffixes |
| Text.ContainsChar | backend/submissions/submissionRoutes.js:54 | every character of an included text occurs in the string |
| Text.LowerFrom | backend/submissions/submissionRoutes.js:51 | a small letter of the lower-cased text comes from that letter or its capital |
| Normalize.DropSpaces | backend/submissions/submissionRoutes.js:30 | a suffix that starts with no whitespace |
| Normalize.TrimEnd | backend/submissions/submissionRoutes.js:30 | a prefix that ends with no whitespace |
| Normalize.Collapse | backend/submissions/submissionRoutes.js:30 | the replacement leaves no two whitespace characters in a row and `' '` as the only one, is empty exactly when the input is, and starts with whitespace exactly when the input does |
| Normalize.ConsCollapsed | backend/submissions/submissionRoutes.js:30 | a non-space character, or one space before a non-space, keeps a collapsed string collapsed |
| Normalize.NormalizeIsCanonical | backend/submissions/submissionRoutes.js:24-31 | the normal form has no leading or trailing whitespace, no two adjacent whitespace characters and `' '` as its only whitespace |
| Normalize.CanonicalFixed | backend/submissions/submissionRoutes.js:24-31 | a string of that shape is its own normal form |
| Normalize.NormalizeIdempotent | backend/submissions/submissionRoutes.js:24-31 | normalising twice is normalising once |
| Normalize.WordsOfNormalize | backend/submissions/submissionRoutes.js:30 | normalisation keeps the words, in order |
| Normalize.NormalizeIsUnwords | backend/workers/submissionProcessor.js:8-13 | the normal form is the words joined by single spaces |
| Normalize.SameNormalFormIffSameWords | backend/submissions/submissionRoutes.js:36-41 | two outputs match exactly when they have the same words |
| Normalize.ComparatorExamples | backend/submissions/submissionRoutes.js:36-41 | `"a b\n"` matches `"a   b"`, and `"a b"` does not match `"ab"` |
| Normalize.WordsExampleNewline | backend/submissions/submissionRoutes.js:30 | the words of `"a b\n"` are `a`, `b` |
| Normalize.WordsExampleRun | backend/submissions/submissionRoutes.js:30 | the words of `"a   b"` are `a`, `b` |
| Normalize.WordsExampleJoined | backend/submissions/submissionRoutes.js:30 | the words of `"ab"` are `ab` alone |
| Normalize.WordsExampleSpaced | backend/submissions/submissionRoutes.js:30 | the words of `"a b"` are `a`, `b` |
| Normalize.CollapseCollapsed | backend/submissions/submissionRoutes.js:30 | collapsing a collapsed string changes nothing |
| Normalize.TrimCanonical | backend/submissions/submissionRoutes.js:30 | trimming a collapsed string gives the canonical shape |
| Normalize.CanonicalIsUnwords | backend/submissions/submissionRoutes.js:24-31 | a canonical string is its words joined by single spaces |
| Request.NonEmptyStringIff | backend/submissions/submissionRoutes.js:159-163 | a field passes `!f \|\| typeof f !== 'string'` exactly when it is a non-empty string |
| Judge.Classify | backend/submissions/submissionRoutes.js:51-58 | Time Limit Exceeded exactly when the lower-cased message includes `timeout`; Compilation Error exactly when it does not but includes `compilation` or `compile`; Runtime Error otherwise |
| Judge.ClassifyIgnoresCase | backend/submissions/submissionRoutes.js:51 | the class depends only on the lower-cased message |
| Judge.ClassifyTimeout | backend/compilerBackend/executeCode.js:180 | the container wait's `Timeout` error is a time-limit verdict |
| Judge.NeitherTimeoutNorCompile | backend/submissions/submissionRoutes.js:51-58 | a message with no `i` and no `c` in either case is a runtime error |
| Judge.ClassifyUnsupported | backend/compilerBackend/executeCode.js:147 | the `Unsupported language` error is a runtime error |
| Judge.TimeoutBeforeCompile | backend/submissions/submissionRoutes.js:52-55 | a message naming both a timeout and a compiler is a timeout |
| Judge.Results | backend/submissions/submissionRoutes.js:32-34 | one result per test case, each that case's run and comparison |
| Judge.FirstThrow | backend/submissions/submissionRoutes.js:50-59 | the index of the first case whose run throws, or the number of cases |
| Judge.FirstThrowFrom | backend/submissions/submissionRoutes.js:50-59 | one position later, the first throw is met now or one step further |
| Judge.CountPass | backend/submissions/submissionRoutes.js:41-42 | the number of passes is at most the number of results |
| Judge.CountPassAll | backend/submissions/submissionRoutes.js:41-42 | every result passes exactly when the passes number the results |
| Judge.ScanAt | backend/submissions/submissionRoutes.js:32-61 | one loop turn, seen from the unread results |
| Judge.ScanCount | backend/submissions/submissionRoutes.js:41-42 | the loop adds to `passedCases` exactly the matches before the first error |
| Judge.ScanStatus | backend/submissions/submissionRoutes.js:41-59 | the loop ends with the first error's class, or else keeps its status exactly when every case matched and becomes Wrong Answer otherwise |
| Judge.ScanIsReference | backend/submissions/submissionRoutes.js:32-65 | from Accepted and 0 the loop computes the reference verdict, so the downgrade never changes it |
| Judge.JudgeIsReference | backend/submissions/submissionRoutes.js:19-70 | judging is the reference verdict over the case results, with `totalTestCases` the number of cases |
| Judge.PassedBounded | backend/submissions/submissionRoutes.js:20-21 | `0 <= passedTestCases <= totalTestCases == testCases.length` |
| Judge.ReferenceAccepted | backend/submissions/submissionRoutes.js:22 | the reference verdict is Accepted exactly when every case passes, and then every case is counted |
| Judge.AcceptedIffAllPass | backend/submissions/submissionRoutes.js:41-65 | Accepted exactly when every case runs and matches, and then passed equals total |
| Judge.NeverPartial | backend/submissions/submissionRoutes.js:63-65 | the status of every verdict the judge returns is neither Partially Accepted nor Pending |
| Judge.NoCasesAccepted | backend/submissions/submissionRoutes.js:21-22 | no test cases give Accepted with 0 of 0 |
| Judge.ResultsAppend | backend/submissions/submissionRoutes.js:32 | the results of two lists of cases are the results of each, in order |
| Judge.ScanStops | backend/submissions/submissionRoutes.js:59 | results after the first error do not change the loop's outcome |
| Judge.StopsAtFirstError | backend/submissions/submissionRoutes.js:59 | cases after one whose run throws do not change the status or the count |
| Judge.CheckThrows | backend/submissions/submissionRoutes.js:33-50 | a case's result is an error exactly when its run throws, with the thrown text |
| Judge.ReferenceWithoutThrow | backend/submissions/submissionRoutes.js:41-49 | without errors the verdict is Accepted or Wrong Answer over the number of matches |
| Judge.ReferenceAtThrow | backend/submissions/submissionRoutes.js:50-59 | at the first error the verdict is its class over the matches before it |
| Judge.WrongAnswerKeepsCounting | backend/submissions/submissionRoutes.js:41-49 | with no execution errors a mismatch makes the verdict Wrong Answer and every match, before or after it, is counted |
| Judge.ErrorDecides | backend/submissions/submissionRoutes.js:50-59 | the first error decides the status, overriding an earlier Wrong Answer, and only the matches before it count |
| Judge.UnsupportedLanguageIsRuntimeError | backend/compilerBackend/executeCode.js:146-147 | an unknown language, judged by the container executor, is a runtime error with nothing passed |
| Judge.PointValue | backend/submissions/submissionRoutes.js:77 | `points \|\| 100`: a missing or zero value counts 100, any other value counts itself |
| Judge.Credit | backend/submissions/submissionRoutes.js:78-84 | the user's entry is created with the amount or increased by it, and no other entry changes |
| Judge.SettleChanges | backend/submissions/submissionRoutes.js:74-85 | the totals change only for an Accepted, non-practice problem, and then only the user's entry, by `points \|\| 100` |
| Store.Submission.constructor | backend/submissions/submissionRoutes.js:174-180 | a new submission carries its fields and is pending with 0 of 0 |
| Store.Submission.Record | backend/submissions/submissionRoutes.js:68-71 | the three verdict fields become the verdict's |
| Store.LeaderBoard.Award | backend/submissions/submissionRoutes.js:78-84 | the totals become the create-or-add credit |
| Store.LeaderBoard.Settle | backend/submissions/submissionRoutes.js:74-86 | the totals become the settled leaderboard |
| Store.Queue.Add | backend/submissions/submissionRoutes.js:183-192 | the job is appended to the queue |
| Store.FindProblem | backend/submissions/submissionRoutes.js:168 | `None` exactly when no problem has the code, else the first one that has it |
| Submissions.RunCase | backend/submissions/submissionRoutes.js:33-49 | one case's run and comparison is its result in `Judge.Results` |
| Submissions.Turn | backend/submissions/submissionRoutes.js:41-59 | one turn updates `status` and `passedCases` as the loop does, and stops exactly on an error |
| Submissions.RunCases | backend/submissions/submissionRoutes.js:32-61 | the loop's `status` and `passedCases` are the specification scan's |
| Submissions.JudgeCases | backend/submissions/submissionRoutes.js:32-65 | loop and downgrade give the verdict `Judge.Judge` |
| Submissions.EvaluateSubmission | backend/submissions/submissionRoutes.js:19-87 | the submission holds the verdict, and the leaderboard is settled with the problem looked up again by the submission's code |
| Submissions.Mine | backend/submissions/submissionRoutes.js:127 | every returned submission is the user's and in the collection, and every submission of the user in the collection is returned |
| Submissions.CountAccepted | backend/submissions/submissionRoutes.js:129 | at most the number of submissions |
| Submissions.SolvedProblems | backend/submissions/submissionRoutes.js:132-135 | the `forEach` fills the set of solved codes |
| Submissions.SolvedIff | backend/submissions/submissionRoutes.js:132-135 | a code is solved exactly when some accepted submission names it |
| Submissions.SolvedSnoc | backend/submissions/submissionRoutes.js:133-134 | one more submission adds its code exactly when it is accepted |
| Submissions.SolvedBounded | backend/submissions/submissionRoutes.js:128-147 | `problemsSolved <= acceptedSubmissions <= totalSubmissions` |
| Submissions.SuccessRateRounds | backend/submissions/submissionRoutes.js:146 | the rate is `100 * accepted / total` rounded to the nearest integer, halves up |
| Submissions.SuccessRateBounded | backend/submissions/submissionRoutes.js:146 | the rate is within 0..100, 0 with nothing accepted or no submissions, and 100 when all are accepted |
| Submissions.UserStats | backend/submissions/submissionRoutes.js:118-149 | 403 exactly when the caller is neither the user nor an admin; otherwise the total, accepted, rate and solved numbers of the user's submissions |
| Submissions.Admission | backend/submissions/submissionRoutes.js:159-171 | 400 exactly for a bad field, 404 exactly for a well-formed body naming no problem, 201 exactly otherwise |
| Submissions.Submit | backend/submissions/submissionRoutes.js:155-200 | the reply is the admission; only an admitted body stores a pending submission and queues its id and code |
| Submissions.BadFieldRejected | backend/submissions/submissionRoutes.js:159-166 | a missing, empty or non-string code is rejected |
| Submissions.KnownProblemQueued | backend/submissions/submissionRoutes.js:168-196 | a well-formed body naming a catalogue problem is admitted |
| Worker.Job.Report | backend/workers/submissionProcessor.js:37 | the value is appended to the job's progress |
| Worker.ProgressTrace | backend/workers/submissionProcessor.js:53 | one value per case that ran |
| Worker.ProgressValues | backend/workers/submissionProcessor.js:53 | the value after case `i` is `floor((i + 1) * 100 / total)` |
| Worker.ProgressStep | backend/workers/submissionProcessor.js:53 | one more report extends the trace by the next value |
| Worker.ProgressMonotone | backend/workers/submissionProcessor.js:53 | the values never decrease and stay within 0..100 |
| Worker.ProgressComplete | backend/workers/submissionProcessor.js:53 | the last value is 100 exactly when every case has run |
| Worker.ReportProgress | backend/workers/submissionProcessor.js:53 | the job's progress grows by the next trace value |
| Worker.RunCasesReporting | backend/workers/submissionProcessor.js:39-66 | the loop's `status` and `passedCases` are those of `evaluateSubmission`'s loop, and progress is reported once for each case before the first error, none for the case that throws |
| Worker.JudgeReporting | backend/workers/submissionProcessor.js:32-70 | the verdict is `Judge.Judge`, the same as `evaluateSubmission`'s, after reporting 0 and then the trace |
| Worker.Process | backend/workers/submissionProcessor.js:16-99 | the job fails with `Submission or problem not found` exactly when either lookup is empty, and then the submission, the progress and the leaderboard are unchanged; otherwise the returned verdict is the one written to the submission, progress is 0 followed by the trace, and the leaderboard is settled |
| Contest.AppendNewKeepsNoDuplicates | backend/contest/contestRoutes.js:78-82 | appending a user who is not a participant keeps the participants distinct |
| Contest.FindInContest | backend/contest/contestRoutes.js:117 | a problem is found only for a string code, is a contest problem with that code, and is missing exactly when no contest problem has it |
| Contest.Contest.constructor | backend/model/Contest.js:6-9 | a contest with its window and problems and no participants |
| Contest.Contest.Register | backend/contest/contestRoutes.js:72-85 | 400 after `endTime` (registering before `startTime` is allowed); 400 for a participant; otherwise exactly that user is appended; the participants stay distinct |
| Contest.Contest.Eligibility | backend/contest/contestRoutes.js:100-120 | success exactly when the time is in the window, the user is registered, the three fields are truthy and the problem belongs to the contest, with each failure's status and message in that order |
| Contest.NonStringCodeNotInContest | backend/contest/contestRoutes.js:117-119 | a truthy non-string code is never part of the contest |
| Contest.EligibleWhenAllHold | backend/contest/contestRoutes.js:100-120 | every check passing lets the submission in |
| Contest.Submit | backend/contest/contestRoutes.js:122-145 | an ineligible body gets its check's reply and nothing is stored; otherwise a pending submission is created; a catalogue miss answers 400 (the submission stays pending); otherwise the submission is judged as `evaluateSubmission` does and the reply is 201 |
| Standings.PointOf | backend/contest/contestRoutes.js:192 | never 0, and 100 for a code outside the contest |
| Standings.PointsOfKeys | backend/contest/contestRoutes.js:174-177 | the map has exactly the contest's problem codes |
| Standings.LastDuplicateWins | backend/contest/contestRoutes.js:174-177 | each code is worth `points \|\| 100` of the last contest problem with it |
| Standings.ProblemPoints | backend/contest/contestRoutes.js:174-177 | the `forEach` builds that map |
| Standings.UsersOfSpec | backend/contest/contestRoutes.js:180-189 | one key per user with a submission, each once |
| Standings.CodesOfSpec | backend/contest/contestRoutes.js:190-193 | each problem a user solved, once |
| Standings.CodesOfUser | backend/contest/contestRoutes.js:180-193 | a user with a solved problem has an entry |
| Standings.SumPointsSnoc | backend/contest/contestRoutes.js:192 | one more solved code adds its point value |
| Standings.StatsKeys | backend/contest/contestRoutes.js:182-189 | `userStats` has an entry exactly for the users with a submission |
| Standings.StatsOfSpec | backend/contest/contestRoutes.js:180-196 | a user's set is the problems they solved and `totalPoints` is the sum of their values, each pair counted once however often it was accepted |
| Standings.FirstSolvePrefix | backend/contest/contestRoutes.js:191 | whether an earlier submission is a first solve does not depend on later ones |
| Standings.FirstSolveLast | backend/contest/contestRoutes.js:191 | the last submission is a first solve exactly when its problem is new for its user |
| Standings.LastStep | backend/contest/contestRoutes.js:190-195 | a first solve sets the user's time and anything else leaves the entry alone |
| Standings.LastTimeSpec | backend/contest/contestRoutes.js:186-194 | `lastAcceptedTime` is the time of the user's last first solve |
| Standings.LatestFirstSolve | backend/contest/contestRoutes.js:168 | with the query's time order, `lastAcceptedTime` is the latest of the user's first solves |
| Standings.Visit | backend/contest/contestRoutes.js:182-195 | one `forEach` turn is one step of the specification |
| Standings.Aggregate | backend/contest/contestRoutes.js:180-196 | the `forEach` builds `userStats` and its keys in insertion order |
| Standings.RowsOf | backend/contest/contestRoutes.js:199-206 | one row per user, in order, carrying that user's points and time |
| Standings.BuildRows | backend/contest/contestRoutes.js:199-206 | the `for...in` loop pushes those rows |
| Standings.BeforeAll | backend/contest/contestRoutes.js:209-214 | a row that may precede every row of a list may precede every row of a rearrangement of it |
| Standings.ConsRanked | backend/contest/contestRoutes.js:209-214 | a row that may precede every row of a ranked list can head it |
| Standings.Insert | backend/contest/contestRoutes.js:209-214 | inserting into a ranked list keeps it ranked and adds exactly that row |
| Standings.Rank | backend/contest/contestRoutes.js:208-214 | the sort's result is ranked (points descending, then time ascending) and a rearrangement of its input |
| Standings.Leaderboard | backend/contest/contestRoutes.js:164-214 | the route's leaderboard is the specification `Standing` of the contest's accepted submissions |
| Standings.CountOnce | backend/contest/contestRoutes.js:199-206 | a list without repeats holds each element once |
| Standings.CountTwice | backend/contest/contestRoutes.js:199-206 | an element at two places is counted at least twice |
| Standings.StandingRows | backend/contest/contestRoutes.js:180-206 | every row carries its user's sum over distinct solved problems and their `lastAcceptedTime` |
| Standings.HasRowPermuted | backend/contest/contestRoutes.js:209-214 | the sort keeps who has a row |
| Standings.StandingUsers | backend/contest/contestRoutes.js:199-206 | a user has a row exactly when they have a submission in the query's result |
| Standings.AcceptedOf | backend/contest/contestRoutes.js:165-168 | the query's status filter keeps exactly the submissions whose status is Accepted |
| Standings.AcceptedUsers | backend/contest/contestRoutes.js:165-168 | the filter keeps a submission of a user exactly when that user has an accepted one |
| Standings.LeaderboardUsers | backend/contest/contestRoutes.js:165-206 | the leaderboard has a row for a user exactly when that user has an accepted submission among the contest's submissions |
| Standings.RowIdsDistinct | backend/contest/contestRoutes.js:199-206 | rows built from distinct users belong to distinct users |
| Standings.DistinctIdsPermuted | backend/contest/contestRoutes.js:209-214 | the sort keeps the rows' users distinct |
| Standings.StandingDistinct | backend/contest/contestRoutes.js:199-214 | no user has two rows |

## Left out

- The container lifecycle is an abstract `Backend` function: create, start, the 30-second wait, the logs and the removal, and the memory, network and process limits. On a timeout the source rethrows before removing the container; the model does not describe cleanup at all.
- Shell command construction, base64 encoding and `printf` quoting of the input are part of that abstract backend.
- `payload.toString('utf8')` maps each byte to the character with that code. Multi-byte UTF-8 sequences are not decoded.
- `toLowerCase` lower-cases the ASCII letters only. Other letters with a lower-case form are kept as they are.
- `normalizeOutput`'s `String(str)` conversion of a non-string is not modelled: outputs and expected outputs are strings.
- The verdict's Compilation Error arises only from an error text that names a compiler. The container executor passes compiler messages through the logs, so with that executor a failed compile yields Wrong Answer.
- "Partially Accepted" is not in the stored schema's status enum; the model proves it is never produced (`Judge.NeverPartial`), so that enum check is never reached.
- Mongoose persistence, `save()` ordering and Redis cache invalidation are left out. The model writes the documents as class fields in program order.
- The asynchronous, unawaited `evaluateSubmission` call of the contest route is modelled as a synchronous call that finishes before the reply.
- Authentication, ObjectId validation and the 404 for an unknown contest are left out. So are the 500 replies of the routes' `catch` blocks for database failures, as persistence is.
- Submissions.Submit: the stored schema's `language` enum (backend/model/Submissions.js:15) and the ObjectId casts are not modelled. A language outside the enum, such as `cpp` or `python3`, makes `Submission.create` (submissionRoutes.js:174) throw, and the `catch` answers 500 (submissionRoutes.js:201-202); the model stores the submission instead.
- Contest.Submit: the same enum and casts are not modelled. A language outside the enum makes `Submission.create` (contestRoutes.js:123) throw, and the `catch` answers 500 (contestRoutes.js:146-147); the model stores the submission instead.
- The queue's retry policy (`attempts`, `backoff`) belongs to the queue library and is left out. The worker's catch-and-rethrow becomes the `Failure` result of `Worker.Process`. An error thrown by `job.progress` itself is not modelled.
- The `recentSubmissions` query of the statistics route is left out: it only reads the database.
- The contest reference a contest submission stores (`contest: contest._id`) is not a field of `Store.Submission`.
- Submissions.UserStats: the rate is exact rational rounding of `100 * accepted / total`, with halves up. JavaScript's floating-point division can land just below a half (29 of 200 gives 14.499…), where `Math.round` gives one less.
- Submissions.Mine: the contract states membership both ways, not the multiplicity or order of the returned submissions.
- Contest.ContestBody: `language` and `code` are strings, with an absent one as the empty string. A non-string value of those two fields is not modelled.
- Standings: the input of `Standings.Leaderboard` is the contest's submissions; the query's `contest` filter is that choice of input, and its `status` filter is computed by `Standings.AcceptedOf`. The query's `submittedAt` ordering is not computed: `Standings.LatestFirstSolve` takes it as the precondition `Standings.ByTime`. Timestamps are integers.
- Standings.Rank: the contract states ranked and a rearrangement. It does not state the order of rows that tie.
- Standings.UsersOf: the rows follow the order in which users were inserted, which is what `for...in` gives for keys that are not array indices. Numeric user ids, which JavaScript enumerates first, are not modelled.
- Prototype keys of the plain objects (`problemPoints`, `userStats`), such as a problem code spelled `constructor`, are not modelled.
