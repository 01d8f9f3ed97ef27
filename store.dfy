/**
 * The documents the judging code reads and writes: a submission, whose verdict
 * fields are overwritten once it is judged, the per-user leaderboard totals, and
 * the problem lookup by code.
 */
module Store {
  import opened Wrappers
  import Judge

  /** The `_id` of a submission document; the database assigns it. */
  type SubmissionId = nat

  /** A submission document; the verdict fields start at their schema defaults. */
  class Submission {
    const id: SubmissionId
    const user: Judge.UserId
    const problemCode: string
    const language: string
    const code: string
    var status: Judge.Status
    var passedTestCases: nat
    var totalTestCases: nat

    /** `Submission.create({user, problemCode, language, code, status: 'pending'})`. */
    constructor (id: SubmissionId, user: Judge.UserId, problemCode: string, language: string, code: string)
      ensures this.id == id && this.user == user && this.problemCode == problemCode
      ensures this.language == language && this.code == code
      ensures status == Judge.Pending && passedTestCases == 0 && totalTestCases == 0
    {
      this.id := id;
      this.user := user;
      this.problemCode := problemCode;
      this.language := language;
      this.code := code;
      status := Judge.Pending;
      passedTestCases := 0;
      totalTestCases := 0;
    }

    /** The three fields written back after judging. */
    method Record(v: Judge.Verdict)
      modifies this
      ensures status == v.status && passedTestCases == v.passed && totalTestCases == v.total
    {
      status := v.status;
      passedTestCases := v.passed;
      totalTestCases := v.total;
    }
  }

  /** The leaderboard collection: one `totalPoints` per user that has one. */
  class LeaderBoard {
    var totals: map<Judge.UserId, int>

    constructor ()
      ensures totals == map[]
    {
      totals := map[];
    }

    /**
     * `LeaderBoard.findOne({userId})`, then `create({userId, totalPoints})` when there is
     * none, or `lb.totalPoints += points` and `save()`.
     */
    method Award(user: Judge.UserId, points: int)
      modifies this
      ensures totals == Judge.Credit(old(totals), user, points)
    {
      if user in totals {
        totals := totals[user := totals[user] + points];
      } else {
        totals := totals[user := points];
      }
    }

    /** Lines 74-85: only an Accepted verdict on a problem that is not practice earns points. */
    method Settle(user: Judge.UserId, status: Judge.Status, problem: Option<Judge.Problem>)
      modifies this
      ensures totals == Judge.Settle(old(totals), user, status, problem)
    {
      if status == Judge.Accepted && problem.Some? && !problem.value.isPractice {
        Award(user, Judge.PointValue(problem.value.points));
      }
    }
  }

  /** What the route puts on the submission queue. */
  datatype JobData = JobData(submissionId: SubmissionId, problemCode: string)

  /** The submission queue: the jobs added so far, oldest first. */
  class Queue {
    var jobs: seq<JobData>

    constructor ()
      ensures jobs == []
    {
      jobs := [];
    }

    /** `submissionQueue.add(data, ...)`. */
    method Add(data: JobData)
      modifies this
      ensures jobs == old(jobs) + [data]
    {
      jobs := jobs + [data];
    }
  }

  /** The fields of a stored submission that the statistics and the contest leaderboard read. */
  datatype Snapshot = Snapshot(user: Judge.UserId, problemCode: string, status: Judge.Status, submittedAt: int)

  /** `Problem.findOne({problemCode: code})`: the first problem document with that code. */
  function FindProblem(catalogue: seq<Judge.Problem>, code: string): (r: Option<Judge.Problem>)
    ensures r.None? <==> forall i :: 0 <= i < |catalogue| ==> catalogue[i].problemCode != code
    ensures r.Some? ==>
      exists i :: 0 <= i < |catalogue| && catalogue[i] == r.value
                  && (forall j :: 0 <= j < i ==> catalogue[j].problemCode != code)
    ensures r.Some? ==> r.value.problemCode == code
  {
    if catalogue == [] then None
    else if catalogue[0].problemCode == code then Some(catalogue[0])
    else FindProblem(catalogue[1..], code)
  }
}
