/**
 * The verdict rules shared by `evaluateSubmission` and the queue worker: output
 * comparison, classification of execution errors, the per-case scan that keeps
 * going after a wrong answer and stops at an error, the final downgrade, and the
 * points a leaderboard entry is credited.
 */
module Judge {
  import opened Wrappers
  import Text
  import Normalize
  import Execute
  import Seqs

  /** The values `submission.status` takes. */
  datatype Status = Pending | Accepted | WrongAnswer | TimeLimitExceeded
                  | CompilationError | RuntimeError | PartiallyAccepted

  datatype TestCase = TestCase(input: string, output: string)

  /**
   * A problem document. The schema declares neither `points` nor `isPractice`, so their
   * values come from outside it: `None` is a missing `points` field, and a missing
   * `isPractice` reads as `false`.
   */
  datatype Problem = Problem(problemCode: string, testCases: seq<TestCase>, points: Option<int>, isPractice: bool)

  /** `status`, `passedTestCases` and `totalTestCases` as the judge writes them. */
  datatype Verdict = Verdict(status: Status, passed: nat, total: nat)

  /** `executeCode(code, language, input)`: the output, or the text of what it threw. */
  type Executor = (string, string, string) -> Execute.CaseOutcome

  /** The executor the routes use: `executeCode` over a given container backend. */
  function Docker(backend: Execute.Backend): (exec: Executor)
    ensures forall code, language, input ::
      exec(code, language, input) == Execute.Execution(code, language, input, backend)
  {
    (code, language, input) => Execute.Execution(code, language, input, backend)
  }

  /** The normalised outputs are equal. */
  predicate Matches(output: string, expected: string) {
    Normalize.NormalizeOutput(output) == Normalize.NormalizeOutput(expected)
  }

  /** `err.toString().toLowerCase()` checked for `timeout`, then `compilation` or `compile`. */
  function Classify(message: string): (s: Status)
    ensures s == TimeLimitExceeded || s == CompilationError || s == RuntimeError
    ensures s == TimeLimitExceeded <==> Text.Contains(Text.ToLower(message), "timeout")
    ensures s == CompilationError <==>
      !Text.Contains(Text.ToLower(message), "timeout")
      && (Text.Contains(Text.ToLower(message), "compilation") || Text.Contains(Text.ToLower(message), "compile"))
  {
    var m := Text.ToLower(message);
    if Text.Contains(m, "timeout") then TimeLimitExceeded
    else if Text.Contains(m, "compilation") || Text.Contains(m, "compile") then CompilationError
    else RuntimeError
  }

  /** The classification ignores case. */
  lemma ClassifyIgnoresCase(message: string)
    ensures Classify(message) == Classify(Text.ToLower(message))
  {
    Text.ToLowerIdempotent(message);
  }

  lemma TimeoutLowered()
    ensures Text.ToLower("Timeout") == "timeout"
  {
  }

  /** The container timeout is a time-limit verdict. */
  lemma ClassifyTimeout()
    ensures Classify(Execute.TimeoutError) == TimeLimitExceeded
  {
    Text.ToLowerAppend("Error: ", "Timeout");
    TimeoutLowered();
    Text.ContainsSuffix(Text.ToLower("Error: "), "timeout");
  }

  /** A message with no `i` and no `c` in either case names neither a timeout nor a compiler. */
  lemma NeitherTimeoutNorCompile(message: string)
    requires 'i' !in message && 'I' !in message && 'c' !in message && 'C' !in message
    ensures Classify(message) == RuntimeError
  {
    var m := Text.ToLower(message);
    Text.LowerFrom(message, 'i', 'I');
    Text.LowerFrom(message, 'c', 'C');
    Text.ContainsChar(m, "timeout", 1);
    Text.ContainsChar(m, "compilation", 0);
    Text.ContainsChar(m, "compile", 0);
  }

  /** An unsupported language is classified as a runtime error. */
  lemma ClassifyUnsupported()
    ensures Classify(Execute.UnsupportedLanguage) == RuntimeError
  {
    NeitherTimeoutNorCompile(Execute.UnsupportedLanguage);
  }

  /** A timeout wins over a compile message in the same text. */
  lemma TimeoutBeforeCompile(message: string)
    requires Text.Contains(Text.ToLower(message), "timeout")
    requires Text.Contains(Text.ToLower(message), "compile")
    ensures Classify(message) == TimeLimitExceeded
  {
  }

  /** What one test case comes to: its output matched, it did not, or the run threw. */
  datatype CaseResult = Pass | Fail | Threw(message: string)

  /** Run test case `c` and compare its output with the expected one. */
  function Check(exec: Executor, code: string, language: string, c: TestCase): CaseResult {
    match exec(code, language, c.input)
    case Err(m) => Threw(m)
    case Ok(out) => if Matches(out, c.output) then Pass else Fail
  }

  /** Case `c` runs and its normalised output equals the normalised expected output. */
  predicate Passes(exec: Executor, code: string, language: string, c: TestCase) {
    Check(exec, code, language, c) == Pass
  }

  /** The result of each test case, in order. */
  function Results(exec: Executor, code: string, language: string, cases: seq<TestCase>): (rs: seq<CaseResult>)
    ensures |rs| == |cases|
    ensures forall j :: 0 <= j < |cases| ==> rs[j] == Check(exec, code, language, cases[j])
  {
    if cases == [] then [] else [Check(exec, code, language, cases[0])] + Results(exec, code, language, cases[1..])
  }

  /** The two variables the loop of lines 32-61 updates: `status` and `passedCases`. */
  datatype Tally = Tally(status: Status, passed: nat)

  /** One turn of the loop of lines 32-61: what a case does to `(status, passedCases)`. */
  function Step(r: CaseResult, status: Status, passed: nat): Tally {
    match r
    case Pass => Tally(status, passed + 1)
    case Fail => Tally(WrongAnswer, passed)
    case Threw(m) => Tally(Classify(m), passed)
  }

  /** The loop over the case results from `status` and `passed`; a thrown error ends it. */
  function Scan(rs: seq<CaseResult>, status: Status, passed: nat): Tally {
    if rs == [] then Tally(status, passed)
    else if rs[0].Threw? then Step(rs[0], status, passed)
    else
      var next := Step(rs[0], status, passed);
      Scan(rs[1..], next.status, next.passed)
  }

  /** Lines 63-65. */
  function Downgrade(status: Status, passed: nat, total: nat): Status {
    if status == Accepted && passed < total then
      if passed > 0 then PartiallyAccepted else WrongAnswer
    else status
  }

  /** The verdict of judging `code` against `cases`. */
  function Judge(exec: Executor, code: string, language: string, cases: seq<TestCase>): Verdict {
    var r := Scan(Results(exec, code, language, cases), Accepted, 0);
    Verdict(Downgrade(r.status, r.passed, |cases|), r.passed, |cases|)
  }

  /** One turn of the loop, seen from the unread part of the results. */
  lemma ScanAt(rs: seq<CaseResult>, i: nat, status: Status, passed: nat)
    requires i < |rs|
    ensures Scan(rs[i..], status, passed) ==
      if rs[i].Threw? then Step(rs[i], status, passed)
      else Scan(rs[i + 1..], Step(rs[i], status, passed).status, Step(rs[i], status, passed).passed)
  {
    assert rs[i..][0] == rs[i];
    assert rs[i..][1..] == rs[i + 1..];
  }

  // ----- An independent description of the verdict -----

  /** The index of the first result that threw, or `|rs|` when none did. */
  function FirstThrow(rs: seq<CaseResult>): (k: nat)
    ensures k <= |rs|
    ensures forall j :: 0 <= j < k ==> !rs[j].Threw?
    ensures k < |rs| ==> rs[k].Threw?
  {
    if rs == [] || rs[0].Threw? then 0 else 1 + FirstThrow(rs[1..])
  }

  /** How many results are passes. */
  function CountPass(rs: seq<CaseResult>): (n: nat)
    ensures n <= |rs|
  {
    if rs == [] then 0 else (if rs[0] == Pass then 1 else 0) + CountPass(rs[1..])
  }

  predicate AllPass(rs: seq<CaseResult>) {
    forall j :: 0 <= j < |rs| ==> rs[j] == Pass
  }

  /**
   * The verdict stated without the loop: the cases before the first error are counted,
   * the first error, if any, decides the status, and otherwise the status is Accepted
   * exactly when every case passed.
   */
  function Reference(rs: seq<CaseResult>): Tally {
    var k := FirstThrow(rs);
    var status :=
      if k < |rs| then Classify(rs[k].message)
      else if AllPass(rs) then Accepted
      else WrongAnswer;
    Tally(status, CountPass(rs[..k]))
  }

  lemma CountPassCons(r: CaseResult, rest: seq<CaseResult>)
    ensures CountPass([r] + rest) == (if r == Pass then 1 else 0) + CountPass(rest)
  {
    Seqs.TailOfCons(r, rest);
  }

  /** All results are passes exactly when the count reaches their number. */
  lemma {:induction false} CountPassAll(rs: seq<CaseResult>)
    ensures CountPass(rs) == |rs| <==> AllPass(rs)
  {
    if rs != [] {
      var tail := rs[1..];
      CountPassAll(tail);
      if AllPass(rs) {
        assert AllPass(tail) by {
          forall j | 0 <= j < |tail|
            ensures tail[j] == Pass
          {
            assert tail[j] == rs[j + 1];
          }
        }
      } else if AllPass(tail) {
        assert rs[0] != Pass by {
          forall j | 1 <= j < |rs|
            ensures rs[j] == Pass
          {
            assert rs[j] == tail[j - 1];
          }
        }
      }
    }
  }

  /** `Scan` adds the passes before the first error to the count it starts from. */
  lemma {:induction false} ScanCount(rs: seq<CaseResult>, status: Status, passed: nat)
    ensures Scan(rs, status, passed).passed == passed + CountPass(rs[..FirstThrow(rs)])
  {
    if rs == [] {
    } else if rs[0].Threw? {
      assert rs[..0] == [];
    } else {
      var tail := rs[1..];
      var next := Step(rs[0], status, passed);
      ScanCount(tail, next.status, next.passed);
      var k := FirstThrow(tail);
      Seqs.TakeSucc(rs, k);
      CountPassCons(rs[0], tail[..k]);
    }
  }

  /** `Scan` ends with the first error's class, or else keeps its status exactly when every case passed. */
  lemma {:induction false} ScanStatus(rs: seq<CaseResult>, status: Status, passed: nat)
    ensures Scan(rs, status, passed).status ==
      if FirstThrow(rs) < |rs| then Classify(rs[FirstThrow(rs)].message)
      else if AllPass(rs) then status
      else WrongAnswer
  {
    if rs != [] && !rs[0].Threw? {
      var tail := rs[1..];
      var next := Step(rs[0], status, passed);
      ScanStatus(tail, next.status, next.passed);
      var k := FirstThrow(tail);
      if k < |tail| {
        assert tail[k] == rs[k + 1];
      } else {
        CountPassAll(rs);
        CountPassAll(tail);
        CountPassCons(rs[0], tail);
      }
    }
  }

  /** From the start of the loop, `Scan` computes `Reference`, and the downgrade never fires. */
  lemma ScanIsReference(rs: seq<CaseResult>)
    ensures Scan(rs, Accepted, 0) == Reference(rs)
    ensures var r := Scan(rs, Accepted, 0);
      Downgrade(r.status, r.passed, |rs|) == r.status
  {
    ScanCount(rs, Accepted, 0);
    ScanStatus(rs, Accepted, 0);
    var k := FirstThrow(rs);
    if k == |rs| {
      Seqs.TakeAll(rs);
      CountPassAll(rs);
    }
  }

  /** The judged verdict is the reference verdict of the case results. */
  lemma JudgeIsReference(exec: Executor, code: string, language: string, cases: seq<TestCase>)
    ensures var r := Reference(Results(exec, code, language, cases));
      Judge(exec, code, language, cases) == Verdict(r.status, r.passed, |cases|)
  {
    ScanIsReference(Results(exec, code, language, cases));
  }

  /** `0 <= passedTestCases <= totalTestCases == testCases.length`. */
  lemma PassedBounded(exec: Executor, code: string, language: string, cases: seq<TestCase>)
    ensures var v := Judge(exec, code, language, cases);
      v.total == |cases| && v.passed <= v.total
  {
    JudgeIsReference(exec, code, language, cases);
  }

  /** The reference verdict is Accepted exactly when every result is a pass, and then all are counted. */
  lemma ReferenceAccepted(rs: seq<CaseResult>)
    ensures Reference(rs).status == Accepted <==> AllPass(rs)
    ensures Reference(rs).status == Accepted ==> Reference(rs).passed == |rs|
  {
    var k := FirstThrow(rs);
    if k < |rs| {
      assert rs[k] != Pass;
    } else {
      Seqs.TakeAll(rs);
      CountPassAll(rs);
    }
  }

  /** Accepted exactly when every case runs and matches, and then every case is counted. */
  lemma AcceptedIffAllPass(exec: Executor, code: string, language: string, cases: seq<TestCase>)
    ensures Judge(exec, code, language, cases).status == Accepted <==>
      forall j :: 0 <= j < |cases| ==> Passes(exec, code, language, cases[j])
    ensures Judge(exec, code, language, cases).status == Accepted ==>
      Judge(exec, code, language, cases).passed == |cases|
  {
    var rs := Results(exec, code, language, cases);
    JudgeIsReference(exec, code, language, cases);
    ReferenceAccepted(rs);
    assert AllPass(rs) <==> forall j :: 0 <= j < |cases| ==> Passes(exec, code, language, cases[j]);
  }

  /** No verdict is "Partially Accepted" or still pending. */
  lemma NeverPartial(exec: Executor, code: string, language: string, cases: seq<TestCase>)
    ensures Judge(exec, code, language, cases).status != PartiallyAccepted
    ensures Judge(exec, code, language, cases).status != Pending
  {
    JudgeIsReference(exec, code, language, cases);
  }

  /** No test cases: Accepted with 0 of 0. */
  lemma NoCasesAccepted(exec: Executor, code: string, language: string)
    ensures Judge(exec, code, language, []) == Verdict(Accepted, 0, 0)
  {
  }

  lemma {:induction false} ResultsAppend(exec: Executor, code: string, language: string, cases: seq<TestCase>, later: seq<TestCase>)
    ensures Results(exec, code, language, cases + later) ==
      Results(exec, code, language, cases) + Results(exec, code, language, later)
  {
    var all := Results(exec, code, language, cases + later);
    var sum := Results(exec, code, language, cases) + Results(exec, code, language, later);
    assert |all| == |sum|;
    forall j | 0 <= j < |all|
      ensures all[j] == sum[j]
    {
      if j < |cases| {
        assert (cases + later)[j] == cases[j];
      } else {
        assert (cases + later)[j] == later[j - |cases|];
      }
    }
  }

  /** Once a result has thrown, the results after it do not change the scan. */
  lemma {:induction false} ScanStops(rs: seq<CaseResult>, more: seq<CaseResult>, status: Status, passed: nat)
    requires FirstThrow(rs) < |rs|
    ensures Scan(rs + more, status, passed) == Scan(rs, status, passed)
  {
    assert (rs + more)[0] == rs[0];
    if !rs[0].Threw? {
      var next := Step(rs[0], status, passed);
      assert (rs + more)[1..] == rs[1..] + more;
      ScanStops(rs[1..], more, next.status, next.passed);
    }
  }

  /** Cases after one whose execution throws are never run: the verdict ignores them. */
  lemma StopsAtFirstError(exec: Executor, code: string, language: string, cases: seq<TestCase>, k: nat, later: seq<TestCase>)
    requires k < |cases| && exec(code, language, cases[k].input).Err?
    ensures Judge(exec, code, language, cases + later) == Judge(exec, code, language, cases).(total := |cases| + |later|)
  {
    var rs := Results(exec, code, language, cases);
    assert rs[k].Threw?;
    ResultsAppend(exec, code, language, cases, later);
    ScanStops(rs, Results(exec, code, language, later), Accepted, 0);
    ScanIsReference(rs);
    ScanIsReference(Results(exec, code, language, cases + later));
  }

  /** A case's result is a throw exactly when its execution throws, with the thrown text. */
  lemma CheckThrows(exec: Executor, code: string, language: string, c: TestCase)
    ensures Check(exec, code, language, c).Threw? <==> exec(code, language, c.input).Err?
    ensures Check(exec, code, language, c).Threw? ==>
      Check(exec, code, language, c).message == exec(code, language, c.input).message
  {
  }

  /** With no throw, the reference verdict is Accepted or Wrong Answer over all passes. */
  lemma ReferenceWithoutThrow(rs: seq<CaseResult>)
    requires forall j :: 0 <= j < |rs| ==> !rs[j].Threw?
    ensures Reference(rs) == Tally(if AllPass(rs) then Accepted else WrongAnswer, CountPass(rs))
  {
    Seqs.TakeAll(rs);
  }

  /** The first throw seen from position `i`, one step further. */
  lemma FirstThrowFrom(rs: seq<CaseResult>, i: nat)
    requires i < |rs|
    ensures FirstThrow(rs[i..]) == if rs[i].Threw? then 0 else 1 + FirstThrow(rs[i + 1..])
  {
    assert rs[i..][0] == rs[i];
    assert rs[i..][1..] == rs[i + 1..];
  }

  /** At the first throw, the reference verdict is its class over the passes before it. */
  lemma ReferenceAtThrow(rs: seq<CaseResult>, k: nat)
    requires k < |rs| && rs[k].Threw?
    requires forall j :: 0 <= j < k ==> !rs[j].Threw?
    ensures Reference(rs) == Tally(Classify(rs[k].message), CountPass(rs[..k]))
  {
  }

  /** With no execution errors, a wrong answer does not stop the count: every match is counted. */
  lemma WrongAnswerKeepsCounting(exec: Executor, code: string, language: string, cases: seq<TestCase>, j: nat)
    requires forall i :: 0 <= i < |cases| ==> exec(code, language, cases[i].input).Ok?
    requires j < |cases| && !Passes(exec, code, language, cases[j])
    ensures Judge(exec, code, language, cases) ==
      Verdict(WrongAnswer, CountPass(Results(exec, code, language, cases)), |cases|)
  {
    var rs := Results(exec, code, language, cases);
    forall i | 0 <= i < |rs|
      ensures !rs[i].Threw?
    {
      CheckThrows(exec, code, language, cases[i]);
    }
    assert rs[j] != Pass;
    ReferenceWithoutThrow(rs);
    JudgeIsReference(exec, code, language, cases);
  }

  /** An error at case `k` decides the status and counts only the passes before it. */
  lemma ErrorDecides(exec: Executor, code: string, language: string, cases: seq<TestCase>, k: nat)
    requires k < |cases| && exec(code, language, cases[k].input).Err?
    requires forall j :: 0 <= j < k ==> exec(code, language, cases[j].input).Ok?
    ensures var v := Judge(exec, code, language, cases);
      v.status == Classify(exec(code, language, cases[k].input).message)
      && v.passed == CountPass(Results(exec, code, language, cases)[..k]) && v.passed <= k
  {
    var rs := Results(exec, code, language, cases);
    forall j | 0 <= j < k
      ensures !rs[j].Threw?
    {
      CheckThrows(exec, code, language, cases[j]);
    }
    CheckThrows(exec, code, language, cases[k]);
    ReferenceAtThrow(rs, k);
    JudgeIsReference(exec, code, language, cases);
  }

  /** An unsupported language, judged by the container executor, is a runtime error with nothing passed. */
  lemma UnsupportedLanguageIsRuntimeError(backend: Execute.Backend, code: string, language: string, cases: seq<TestCase>)
    requires Execute.ImageFor(language) == None && cases != []
    ensures Judge(Docker(backend), code, language, cases) == Verdict(RuntimeError, 0, |cases|)
  {
    var exec := Docker(backend);
    assert exec(code, language, cases[0].input) == Execute.Err(Execute.UnsupportedLanguage);
    ErrorDecides(exec, code, language, cases, 0);
    ClassifyUnsupported();
  }

  // ----- Points -----

  /** `points || 100`: a missing or zero point value counts 100. */
  function PointValue(points: Option<int>): (v: int)
    ensures v != 0
    ensures points.Some? && points.value != 0 ==> v == points.value
    ensures points.None? || points.value == 0 ==> v == 100
  {
    match points
    case Some(p) => if p != 0 then p else 100
    case None => 100
  }

  /** Leaderboard totals keyed by user. */
  type UserId = string

  /** Create the user's entry with `amount`, or add `amount` to it. */
  function Credit(totals: map<UserId, int>, user: UserId, amount: int): (r: map<UserId, int>)
    ensures r.Keys == totals.Keys + {user}
    ensures r[user] == (if user in totals then totals[user] else 0) + amount
    ensures forall u :: u in totals && u != user ==> r[u] == totals[u]
  {
    if user in totals then totals[user := totals[user] + amount] else totals[user := amount]
  }

  /** The leaderboard update after judging: only an accepted, non-practice problem is credited. */
  function Settle(totals: map<UserId, int>, user: UserId, status: Status, problem: Option<Problem>): map<UserId, int> {
    if status == Accepted && problem.Some? && !problem.value.isPractice then
      Credit(totals, user, PointValue(problem.value.points))
    else totals
  }

  /** The leaderboard changes only for an accepted, non-practice problem, and then by its point value for that user alone. */
  lemma SettleChanges(totals: map<UserId, int>, user: UserId, status: Status, problem: Option<Problem>)
    ensures !(status == Accepted && problem.Some? && !problem.value.isPractice) ==>
      Settle(totals, user, status, problem) == totals
    ensures status == Accepted && problem.Some? && !problem.value.isPractice ==>
      var r := Settle(totals, user, status, problem);
      r.Keys == totals.Keys + {user}
      && r[user] == (if user in totals then totals[user] else 0) + PointValue(problem.value.points)
      && forall u :: u in totals && u != user ==> r[u] == totals[u]
  {
  }
}
