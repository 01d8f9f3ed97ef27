/**
 * The submission routes: `evaluateSubmission`, the per-user statistics of
 * `GET /stats/:userId` and the field checks of `POST /`.
 */
module Submissions {
  import opened Wrappers
  import Normalize
  import Judge
  import Store
  import Request
  import Arith

  // ----- evaluateSubmission -----

  /** The `try` body for one case: run it, and compare both outputs after `normalizeOutput`. */
  method RunCase(exec: Judge.Executor, code: string, language: string, c: Judge.TestCase)
    returns (result: Judge.CaseResult)
    ensures result == Judge.Check(exec, code, language, c)
  {
    var outcome := exec(code, language, c.input);
    if outcome.Err? {
      return Judge.Threw(outcome.message);
    }
    if Normalize.NormalizeOutput(outcome.output) == Normalize.NormalizeOutput(c.output) {
      result := Judge.Pass;
    } else {
      result := Judge.Fail;
    }
  }

  /**
   * What the loop does with one case's result: a match is counted, a mismatch makes the
   * status Wrong Answer, an error is classified and ends the loop.
   */
  method Turn(result: Judge.CaseResult, status: Judge.Status, passed: nat)
    returns (stop: bool, status': Judge.Status, passed': nat)
    ensures stop <==> result.Threw?
    ensures Judge.Tally(status', passed') == Judge.Step(result, status, passed)
  {
    stop, status', passed' := false, status, passed;
    if result.Threw? {
      status' := Judge.Classify(result.message);
      stop := true;
    } else if result == Judge.Pass {
      passed' := passed + 1;
    } else {
      status' := Judge.WrongAnswer;
    }
  }

  /**
   * The loop of lines 32-61: run the cases in order, count the matches, note a mismatch
   * as Wrong Answer and stop at the first execution error, classifying it.
   */
  method RunCases(exec: Judge.Executor, code: string, language: string, cases: seq<Judge.TestCase>)
    returns (t: Judge.Tally)
    ensures t == Judge.Scan(Judge.Results(exec, code, language, cases), Judge.Accepted, 0)
  {
    var passed: nat := 0;
    var status := Judge.Accepted;
    ghost var rs := Judge.Results(exec, code, language, cases);
    var i := 0;
    while i < |cases|
      invariant 0 <= i <= |cases|
      invariant Judge.Scan(rs[i..], status, passed) == Judge.Scan(rs, Judge.Accepted, 0)
    {
      var result := RunCase(exec, code, language, cases[i]);
      Judge.ScanAt(rs, i, status, passed);
      var stop;
      stop, status, passed := Turn(result, status, passed);
      if stop {
        break;
      }
      i := i + 1;
    }
    return Judge.Tally(status, passed);
  }

  /** The loop followed by the downgrade of lines 63-65. */
  method JudgeCases(exec: Judge.Executor, code: string, language: string, cases: seq<Judge.TestCase>)
    returns (v: Judge.Verdict)
    ensures v == Judge.Judge(exec, code, language, cases)
  {
    var t := RunCases(exec, code, language, cases);
    var status := t.status;
    if status == Judge.Accepted && t.passed < |cases| {
      status := if t.passed > 0 then Judge.PartiallyAccepted else Judge.WrongAnswer;
    }
    v := Judge.Verdict(status, t.passed, |cases|);
  }

  /**
   * `evaluateSubmission`: judge `submission` against the test cases of `problem`, write
   * the verdict into the submission and, when it is Accepted, credit the problem's points
   * to the user on the leaderboard. The problem credited is looked up again by the
   * submission's code.
   */
  method EvaluateSubmission(submission: Store.Submission, problem: Judge.Problem, exec: Judge.Executor,
                            catalogue: seq<Judge.Problem>, board: Store.LeaderBoard)
    modifies submission, board
    ensures var v := Judge.Judge(exec, submission.code, submission.language, problem.testCases);
      submission.status == v.status && submission.passedTestCases == v.passed
      && submission.totalTestCases == v.total
    ensures board.totals == Judge.Settle(old(board.totals), submission.user, submission.status,
                                         Store.FindProblem(catalogue, submission.problemCode))
  {
    var v := JudgeCases(exec, submission.code, submission.language, problem.testCases);
    submission.Record(v);
    if v.status == Judge.Accepted {
      var doc := Store.FindProblem(catalogue, submission.problemCode);
      board.Settle(submission.user, v.status, doc);
    }
  }

  // ----- GET /stats/:userId -----

  /** The authenticated caller: `req.user.id` and `req.user.role`. */
  datatype Caller = Caller(id: Judge.UserId, role: string)

  datatype Stats = Stats(totalSubmissions: nat, acceptedSubmissions: nat, successRate: int, problemsSolved: nat)

  datatype StatsReply = Forbidden | Found(stats: Stats)

  /** `Submission.find({user: userId})`: the user's submissions. */
  function Mine(all: seq<Store.Snapshot>, userId: Judge.UserId): (s: seq<Store.Snapshot>)
    ensures forall j :: 0 <= j < |s| ==> s[j].user == userId
    ensures forall x :: x in all && x.user == userId ==> x in s
    ensures forall x :: x in s ==> x in all
  {
    if all == [] then []
    else (if all[0].user == userId then [all[0]] else []) + Mine(all[1..], userId)
  }

  /** `submissions.filter(s => s.status === 'Accepted').length`. */
  function CountAccepted(s: seq<Store.Snapshot>): (n: nat)
    ensures n <= |s|
  {
    if s == [] then 0
    else CountAccepted(s[..|s| - 1]) + (if s[|s| - 1].status == Judge.Accepted then 1 else 0)
  }

  /** The problem codes of the accepted submissions in `s`. */
  function Solved(s: seq<Store.Snapshot>): set<string> {
    set j | 0 <= j < |s| && s[j].status == Judge.Accepted :: s[j].problemCode
  }

  /** `Math.round(accepted / total * 100)`, or 0 without submissions. */
  function SuccessRate(accepted: nat, total: nat): int {
    if total == 0 then 0 else (200 * accepted + total) / (2 * total)
  }

  /** The caller may read the statistics of `userId`. */
  predicate MayRead(caller: Caller, userId: Judge.UserId) {
    caller.id == userId || caller.role == "admin"
  }

  /** `submissions.forEach(s => { if (s.status === 'Accepted') solvedProblems.add(s.problemCode) })`. */
  method SolvedProblems(submissions: seq<Store.Snapshot>) returns (solved: set<string>)
    ensures solved == Solved(submissions)
  {
    solved := {};
    var i := 0;
    while i < |submissions|
      invariant 0 <= i <= |submissions|
      invariant solved == Solved(submissions[..i])
    {
      SolvedSnoc(submissions, i);
      if submissions[i].status == Judge.Accepted {
        solved := solved + {submissions[i].problemCode};
      }
      i := i + 1;
    }
    assert submissions[..i] == submissions;
  }

  /** The statistics route, on the submissions of the whole collection. */
  method UserStats(caller: Caller, userId: Judge.UserId, all: seq<Store.Snapshot>) returns (r: StatsReply)
    ensures r.Forbidden? <==> !MayRead(caller, userId)
    ensures r.Found? ==>
      var s := Mine(all, userId);
      r.stats == Stats(|s|, CountAccepted(s), SuccessRate(CountAccepted(s), |s|), |Solved(s)|)
  {
    if !MayRead(caller, userId) {
      return Forbidden;
    }
    var submissions := Mine(all, userId);
    var total := |submissions|;
    var accepted := CountAccepted(submissions);
    var solved := SolvedProblems(submissions);
    var rate := if total != 0 then (200 * accepted + total) / (2 * total) else 0;
    assert rate == SuccessRate(accepted, total);
    return Found(Stats(total, accepted, rate, |solved|));
  }

  /** The solved set of a longer prefix: the next submission adds its code when accepted. */
  lemma SolvedSnoc(s: seq<Store.Snapshot>, i: nat)
    requires i < |s|
    ensures Solved(s[..i + 1]) ==
      Solved(s[..i]) + (if s[i].status == Judge.Accepted then {s[i].problemCode} else {})
  {
    var a := s[..i + 1];
    var b := s[..i];
    forall c | c in Solved(a)
      ensures c in Solved(b) + (if s[i].status == Judge.Accepted then {s[i].problemCode} else {})
    {
      var j :| 0 <= j < |a| && a[j].status == Judge.Accepted && a[j].problemCode == c;
      if j < i {
        assert b[j] == a[j];
      }
    }
    forall c | c in Solved(b)
      ensures c in Solved(a)
    {
      var j :| 0 <= j < |b| && b[j].status == Judge.Accepted && b[j].problemCode == c;
      assert a[j] == b[j];
    }
    if s[i].status == Judge.Accepted {
      assert a[i] == s[i];
    }
  }

  /** A problem is counted as solved exactly when some accepted submission names it. */
  lemma SolvedIff(s: seq<Store.Snapshot>, code: string)
    ensures code in Solved(s) <==>
      exists j :: 0 <= j < |s| && s[j].status == Judge.Accepted && s[j].problemCode == code
  {
  }

  /** `problemsSolved <= acceptedSubmissions <= totalSubmissions`. */
  lemma {:induction false} SolvedBounded(s: seq<Store.Snapshot>)
    ensures |Solved(s)| <= CountAccepted(s) <= |s|
    decreases |s|
  {
    if s != [] {
      var n := |s| - 1;
      SolvedBounded(s[..n]);
      SolvedSnoc(s, n);
      assert s[..n + 1] == s;
    }
  }

  /** `Math.round`: the rate is the nearest integer to `100 * accepted / total`, halves rounding up. */
  lemma SuccessRateRounds(accepted: nat, total: nat)
    requires total > 0
    ensures var r := SuccessRate(accepted, total);
      2 * total * r <= 200 * accepted + total < 2 * total * (r + 1)
  {
  }

  /** The rate is a percentage: 0 with nothing accepted or no submissions, 100 with all accepted. */
  lemma SuccessRateBounded(accepted: nat, total: nat)
    requires accepted <= total
    ensures 0 <= SuccessRate(accepted, total) <= 100
    ensures accepted == 0 ==> SuccessRate(accepted, total) == 0
    ensures total > 0 && accepted == total ==> SuccessRate(accepted, total) == 100
  {
    if total > 0 {
      var r := SuccessRate(accepted, total);
      var d := 2 * total;
      SuccessRateRounds(accepted, total);
      Arith.MulLtCancel(d, r, 101);
      Arith.MulLtCancel(d, 0, r + 1);
      if accepted == 0 {
        Arith.MulLtCancel(d, r, 1);
      }
      if accepted == total {
        Arith.MulLtCancel(d, 100, r + 1);
      }
    }
  }

  // ----- POST / -----

  datatype SubmitBody = SubmitBody(userId: Request.Field, problemCode: Request.Field,
                                   language: Request.Field, code: Request.Field)

  /** Every field is a non-empty string. */
  predicate WellFormed(body: SubmitBody) {
    Request.NonEmptyString(body.userId) && Request.NonEmptyString(body.problemCode)
    && Request.NonEmptyString(body.language) && Request.NonEmptyString(body.code)
  }

  /** The admission decision: 400 for a bad field, 404 for an unknown problem, else 201. */
  function Admission(body: SubmitBody, catalogue: seq<Judge.Problem>): (status: int)
    ensures status == 400 <==> !WellFormed(body)
    ensures status == 404 <==> WellFormed(body) && Store.FindProblem(catalogue, body.problemCode.s).None?
    ensures status == 201 <==> WellFormed(body) && Store.FindProblem(catalogue, body.problemCode.s).Some?
  {
    if !WellFormed(body) then 400
    else if Store.FindProblem(catalogue, body.problemCode.s).None? then 404
    else 201
  }

  /**
   * The route: on admission a new pending submission, with the id the database gives
   * it, is stored and queued, and the reply is 201; otherwise nothing is stored.
   */
  method Submit(body: SubmitBody, catalogue: seq<Judge.Problem>, id: Store.SubmissionId, queue: Store.Queue)
    returns (status: int, submission: Store.Submission?)
    modifies queue
    ensures status == Admission(body, catalogue)
    ensures status != 201 ==> submission == null && queue.jobs == old(queue.jobs)
    ensures status == 201 ==>
      submission != null && fresh(submission)
      && submission.id == id && submission.user == body.userId.s
      && submission.problemCode == body.problemCode.s && submission.language == body.language.s
      && submission.code == body.code.s && submission.status == Judge.Pending
      && queue.jobs == old(queue.jobs) + [Store.JobData(id, body.problemCode.s)]
  {
    if !Request.NonEmptyString(body.userId) || !Request.NonEmptyString(body.problemCode)
       || !Request.NonEmptyString(body.language) || !Request.NonEmptyString(body.code) {
      return 400, null;
    }
    var problem := Store.FindProblem(catalogue, body.problemCode.s);
    if problem.None? {
      return 404, null;
    }
    submission := new Store.Submission(id, body.userId.s, body.problemCode.s, body.language.s, body.code.s);
    queue.Add(Store.JobData(id, body.problemCode.s));
    status := 201;
  }

  /** A missing, empty or non-string field is turned away before any lookup. */
  lemma BadFieldRejected(body: SubmitBody, catalogue: seq<Judge.Problem>)
    requires body.code == Request.Absent || body.code == Request.Str([]) || body.code.Other?
    ensures Admission(body, catalogue) == 400
  {
  }

  /** A well-formed body naming a known problem is queued. */
  lemma KnownProblemQueued(body: SubmitBody, catalogue: seq<Judge.Problem>, i: nat)
    requires WellFormed(body)
    requires i < |catalogue| && catalogue[i].problemCode == body.problemCode.s
    ensures Admission(body, catalogue) == 201
  {
  }
}
