/**
 * The queue worker of `submissionQueue.process`: it looks the submission and its
 * problem up, judges the submission with the same rules as `evaluateSubmission`,
 * reports progress after every case that ran, records the verdict, credits the
 * leaderboard and returns `{status, passedCases, totalCases}`.
 */
module Worker {
  import opened Wrappers
  import Submissions
  import Judge
  import Store
  import Seqs
  import Arith

  /** A queue job: its data and the progress values it has reported, oldest first. */
  class Job {
    const data: Store.JobData
    var progress: seq<int>

    constructor (data: Store.JobData)
      ensures this.data == data && progress == []
    {
      this.data := data;
      progress := [];
    }

    /** `job.progress(p)`. */
    method Report(p: int)
      modifies this
      ensures progress == old(progress) + [p]
    {
      progress := progress + [p];
    }
  }

  /** `Math.floor((i + 1) * 100 / total)` after each of the first `n` cases. */
  function ProgressTrace(n: nat, total: nat): (trace: seq<int>)
    requires n <= total
    ensures |trace| == n
  {
    if n == 0 then [] else ProgressTrace(n - 1, total) + [n * 100 / total]
  }

  /** The value reported after case `i` is the share of cases done, rounded down. */
  lemma {:induction false} ProgressValues(n: nat, total: nat)
    requires n <= total
    ensures forall i :: 0 <= i < n ==> ProgressTrace(n, total)[i] == (i + 1) * 100 / total
  {
    if n > 0 {
      ProgressValues(n - 1, total);
    }
  }

  /** One more reported value extends the trace by one. */
  lemma ProgressStep(prefix: seq<int>, i: nat, total: nat)
    requires i < total
    ensures prefix + ProgressTrace(i, total) + [(i + 1) * 100 / total] == prefix + ProgressTrace(i + 1, total)
  {
    Seqs.Assoc(prefix, ProgressTrace(i, total), [(i + 1) * 100 / total]);
  }

  /** The reported values never decrease and stay within 0..100. */
  lemma ProgressMonotone(n: nat, total: nat)
    requires n <= total
    ensures forall i, j :: 0 <= i <= j < n ==> 0 <= ProgressTrace(n, total)[i] <= ProgressTrace(n, total)[j] <= 100
  {
    var trace := ProgressTrace(n, total);
    ProgressValues(n, total);
    forall i, j | 0 <= i <= j < n
      ensures 0 <= trace[i] <= trace[j] <= 100
    {
      Arith.DivMonotone((i + 1) * 100, (j + 1) * 100, total);
      Arith.DivMonotone((j + 1) * 100, total * 100, total);
      Arith.DivCancel(100, total);
    }
  }

  /** The last value is 100 exactly when every case has run. */
  lemma ProgressComplete(n: nat, total: nat)
    requires 0 < n <= total
    ensures ProgressTrace(n, total)[n - 1] == 100 <==> n == total
  {
    ProgressValues(n, total);
    if n < total {
      Arith.DivBounds(n * 100, total);
      Arith.MulLtCancel(total, n * 100 / total, 100);
    } else {
      Arith.DivCancel(100, total);
    }
  }

  /** `job.progress(Math.floor((i + 1) * 100 / totalCases))` after case `i`. */
  method ReportProgress(job: Job, i: nat, total: nat, ghost start: seq<int>)
    requires i < total && job.progress == start + ProgressTrace(i, total)
    modifies job
    ensures job.progress == start + ProgressTrace(i + 1, total)
  {
    ProgressStep(start, i, total);
    job.Report((i + 1) * 100 / total);
  }

  /**
   * The loop of lines 39-66: like the loop of `evaluateSubmission`, and after each case
   * that ran without an error it reports the share of cases done.
   */
  method RunCasesReporting(job: Job, exec: Judge.Executor, code: string, language: string, cases: seq<Judge.TestCase>)
    returns (t: Judge.Tally)
    modifies job
    ensures t == Judge.Scan(Judge.Results(exec, code, language, cases), Judge.Accepted, 0)
    ensures job.progress ==
      old(job.progress) + ProgressTrace(Judge.FirstThrow(Judge.Results(exec, code, language, cases)), |cases|)
  {
    var passed: nat := 0;
    var status := Judge.Accepted;
    ghost var rs := Judge.Results(exec, code, language, cases);
    ghost var start := job.progress;
    var i := 0;
    while i < |cases|
      invariant 0 <= i <= |cases|
      invariant Judge.Scan(rs[i..], status, passed) == Judge.Scan(rs, Judge.Accepted, 0)
      invariant Judge.FirstThrow(rs) == i + Judge.FirstThrow(rs[i..])
      invariant job.progress == start + ProgressTrace(i, |cases|)
    {
      var result := Submissions.RunCase(exec, code, language, cases[i]);
      Judge.ScanAt(rs, i, status, passed);
      Judge.FirstThrowFrom(rs, i);
      var stop;
      stop, status, passed := Submissions.Turn(result, status, passed);
      if stop {
        break;
      }
      ReportProgress(job, i, |cases|, start);
      i := i + 1;
    }
    return Judge.Tally(status, passed);
  }

  /** Lines 37-70: report 0, run the cases reporting after each, then downgrade as `evaluateSubmission` does. */
  method JudgeReporting(job: Job, exec: Judge.Executor, code: string, language: string, cases: seq<Judge.TestCase>)
    returns (v: Judge.Verdict)
    modifies job
    ensures v == Judge.Judge(exec, code, language, cases)
    ensures job.progress ==
      old(job.progress) + [0] + ProgressTrace(Judge.FirstThrow(Judge.Results(exec, code, language, cases)), |cases|)
  {
    job.Report(0);
    var t := RunCasesReporting(job, exec, code, language, cases);
    var status := t.status;
    if status == Judge.Accepted && t.passed < |cases| {
      status := if t.passed > 0 then Judge.PartiallyAccepted else Judge.WrongAnswer;
    }
    v := Judge.Verdict(status, t.passed, |cases|);
  }

  /** The error the job fails with when a lookup comes back empty. */
  const NotFound := "Submission or problem not found"

  /**
   * The job body. `submission` is what `Submission.findById` returned; the problem is
   * looked up by the job's code. A missing one fails the job before any case runs.
   */
  method Process(job: Job, submission: Store.Submission?, catalogue: seq<Judge.Problem>,
                 exec: Judge.Executor, board: Store.LeaderBoard)
    returns (r: Result<Judge.Verdict, string>)
    modifies job, board, submission
    ensures var problem := Store.FindProblem(catalogue, job.data.problemCode);
      r.Failure? <==> submission == null || problem.None?
    ensures r.Failure? ==>
      r.error == NotFound && job.progress == old(job.progress) && board.totals == old(board.totals)
    ensures r.Failure? && submission != null ==> unchanged(submission)
    ensures r.Success? ==>
      var problem := Store.FindProblem(catalogue, job.data.problemCode).value;
      var rs := Judge.Results(exec, submission.code, submission.language, problem.testCases);
      r.value == Judge.Judge(exec, submission.code, submission.language, problem.testCases)
      && submission.status == r.value.status && submission.passedTestCases == r.value.passed
      && submission.totalTestCases == r.value.total
      && job.progress == old(job.progress) + [0] + ProgressTrace(Judge.FirstThrow(rs), |problem.testCases|)
      && board.totals == Judge.Settle(old(board.totals), submission.user, r.value.status, Some(problem))
  {
    var found := Store.FindProblem(catalogue, job.data.problemCode);
    if submission == null || found.None? {
      return Failure(NotFound);
    }
    var problem := found.value;
    var v := JudgeReporting(job, exec, submission.code, submission.language, problem.testCases);
    submission.Record(v);
    if v.status == Judge.Accepted {
      board.Settle(submission.user, v.status, Some(problem));
    }
    return Success(v);
  }
}
