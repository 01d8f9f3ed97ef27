/**
 * The contest routes that decide who may register and who may submit: a contest has a
 * time window, a problem list and a participant list that registration appends to.
 */
module Contest {
  import opened Wrappers
  import Judge
  import Store
  import Request
  import Submissions
  import Seqs

  /** The reply of a route: its HTTP status and its `message` or `error` text. */
  datatype Reply = Reply(status: int, message: string)

  const NotActive := "Contest is not active"
  const AlreadyRegistered := "Already registered for this contest"
  const Registered := "Registered for contest successfully"
  const NotRegistered := "You are not registered for this contest"
  const FieldsRequired := "All fields are required"
  const NotInContest := "Problem not part of this contest"
  const ProblemNotFound := "Problem not found"
  const Received := "Submission received"

  /** Appending a user that is not yet in a list without duplicates keeps it without duplicates. */
  lemma AppendNewKeepsNoDuplicates(s: seq<Judge.UserId>, user: Judge.UserId)
    requires Seqs.NoDuplicates(s) && user !in s
    ensures Seqs.NoDuplicates(s + [user])
  {
    forall i, j | 0 <= i < j < |s| + 1
      ensures (s + [user])[i] != (s + [user])[j]
    {
      if j == |s| {
        assert s[i] in s;
      }
    }
  }

  /**
   * The body of a contest submission. `language` and `code` are the strings the route
   * stores; an absent one is the empty string, which the route treats alike.
   */
  datatype ContestBody = ContestBody(problemCode: Request.Field, language: string, code: string)

  /** `contest.problems.find(p => p.problemCode === problemCode)`: only a string can be equal. */
  function FindInContest(problems: seq<Judge.Problem>, problemCode: Request.Field): (r: Option<Judge.Problem>)
    ensures r.Some? ==> problemCode.Str? && r.value in problems && r.value.problemCode == problemCode.s
    ensures r.None? <==> !problemCode.Str? || forall i :: 0 <= i < |problems| ==> problems[i].problemCode != problemCode.s
  {
    if problemCode.Str? then Store.FindProblem(problems, problemCode.s) else None
  }

  class Contest {
    const startTime: int
    const endTime: int
    const problems: seq<Judge.Problem>
    var participants: seq<Judge.UserId>

    /** The participant list never holds a user twice. */
    predicate Valid()
      reads this
    {
      Seqs.NoDuplicates(participants)
    }

    constructor (startTime: int, endTime: int, problems: seq<Judge.Problem>)
      ensures this.startTime == startTime && this.endTime == endTime && this.problems == problems
      ensures participants == [] && Valid()
    {
      this.startTime := startTime;
      this.endTime := endTime;
      this.problems := problems;
      participants := [];
    }

    /**
     * `POST /:id/register` at time `now`: refused once the contest has ended (a contest
     * that has not started yet accepts registrations) and for a user already registered;
     * otherwise the user is appended.
     */
    method Register(user: Judge.UserId, now: int) returns (reply: Reply)
      requires Valid()
      modifies this
      ensures Valid()
      ensures now > endTime ==> reply == Reply(400, NotActive) && participants == old(participants)
      ensures now <= endTime && user in old(participants) ==>
        reply == Reply(400, AlreadyRegistered) && participants == old(participants)
      ensures now <= endTime && user !in old(participants) ==>
        reply == Reply(200, Registered) && participants == old(participants) + [user]
    {
      if now > endTime {
        return Reply(400, NotActive);
      }
      if user in participants {
        return Reply(400, AlreadyRegistered);
      }
      AppendNewKeepsNoDuplicates(participants, user);
      participants := participants + [user];
      reply := Reply(200, Registered);
    }

    /**
     * The checks of `POST /:id/submit`, in the route's order: the time window, the
     * registration, the three fields, and membership of the problem in the contest.
     * On success, the contest's problem with that code.
     */
    function Eligibility(user: Judge.UserId, body: ContestBody, now: int): (r: Result<Judge.Problem, Reply>)
      reads this
      ensures r.Success? <==>
        startTime <= now <= endTime && user in participants
        && Request.Truthy(body.problemCode) && body.language != [] && body.code != []
        && FindInContest(problems, body.problemCode).Some?
      ensures r.Success? ==> r.value in problems && r.value.problemCode == body.problemCode.s
      ensures now < startTime || now > endTime ==> r == Failure(Reply(400, NotActive))
      ensures startTime <= now <= endTime && user !in participants ==> r == Failure(Reply(403, NotRegistered))
      ensures startTime <= now <= endTime && user in participants
              && (!Request.Truthy(body.problemCode) || body.language == [] || body.code == []) ==>
        r == Failure(Reply(400, FieldsRequired))
      ensures startTime <= now <= endTime && user in participants
              && Request.Truthy(body.problemCode) && body.language != [] && body.code != []
              && FindInContest(problems, body.problemCode).None? ==>
        r == Failure(Reply(400, NotInContest))
      ensures r.Failure? && r.error.message == NotInContest ==>
        Request.Truthy(body.problemCode) && FindInContest(problems, body.problemCode).None?
    {
      if now < startTime || now > endTime then Failure(Reply(400, NotActive))
      else if user !in participants then Failure(Reply(403, NotRegistered))
      else if !Request.Truthy(body.problemCode) || body.language == [] || body.code == [] then
        Failure(Reply(400, FieldsRequired))
      else
        match FindInContest(problems, body.problemCode)
        case None => Failure(Reply(400, NotInContest))
        case Some(p) => Success(p)
    }
  }

  /** A truthy code that is not a string is never part of the contest. */
  lemma NonStringCodeNotInContest(contest: Contest, user: Judge.UserId, body: ContestBody, now: int)
    requires contest.startTime <= now <= contest.endTime && user in contest.participants
    requires body.problemCode.Other? && body.problemCode.truthy && body.language != [] && body.code != []
    ensures contest.Eligibility(user, body, now) == Failure(Reply(400, NotInContest))
  {
  }

  /** A registered user inside the window, with the three fields and a contest problem, gets in. */
  lemma EligibleWhenAllHold(contest: Contest, user: Judge.UserId, body: ContestBody, now: int, i: nat)
    requires contest.startTime <= now <= contest.endTime && user in contest.participants
    requires body.problemCode.Str? && body.problemCode.s != [] && body.language != [] && body.code != []
    requires i < |contest.problems| && contest.problems[i].problemCode == body.problemCode.s
    ensures contest.Eligibility(user, body, now).Success?
  {
  }

  /**
   * `POST /:id/submit`. An eligible submission is stored as pending; the problem is then
   * looked up in the catalogue by its code, and a missing one answers 400 while the
   * stored submission stays pending. Otherwise the submission is judged as
   * `evaluateSubmission` does and the reply is 201.
   */
  method Submit(contest: Contest, user: Judge.UserId, body: ContestBody, now: int, id: Store.SubmissionId,
                catalogue: seq<Judge.Problem>, exec: Judge.Executor, board: Store.LeaderBoard)
    returns (reply: Reply, submission: Store.Submission?)
    modifies board
    ensures contest.Eligibility(user, body, now).Failure? ==>
      reply == contest.Eligibility(user, body, now).error && submission == null
      && board.totals == old(board.totals)
    ensures contest.Eligibility(user, body, now).Success? ==>
      submission != null && fresh(submission) && submission.id == id && submission.user == user
      && submission.problemCode == body.problemCode.s && submission.language == body.language
      && submission.code == body.code
    ensures contest.Eligibility(user, body, now).Success? && Store.FindProblem(catalogue, body.problemCode.s).None? ==>
      reply == Reply(400, ProblemNotFound) && submission.status == Judge.Pending
      && board.totals == old(board.totals)
    ensures contest.Eligibility(user, body, now).Success? && Store.FindProblem(catalogue, body.problemCode.s).Some? ==>
      reply == Reply(201, Received)
      && var cases := Store.FindProblem(catalogue, body.problemCode.s).value.testCases;
         var w := Judge.Judge(exec, body.code, body.language, cases);
         submission.status == w.status && submission.passedTestCases == w.passed
         && submission.totalTestCases == w.total
         && board.totals == Judge.Settle(old(board.totals), user, w.status,
                                         Store.FindProblem(catalogue, body.problemCode.s))
  {
    var eligible := contest.Eligibility(user, body, now);
    if eligible.Failure? {
      return eligible.error, null;
    }
    var code := body.problemCode.s;
    submission := new Store.Submission(id, user, code, body.language, body.code);
    var dbProblem := Store.FindProblem(catalogue, code);
    if dbProblem.None? {
      return Reply(400, ProblemNotFound), submission;
    }
    Submissions.EvaluateSubmission(submission, dbProblem.value, exec, catalogue, board);
    reply := Reply(201, Received);
  }
}
