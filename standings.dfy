/**
 * The contest leaderboard: the accepted submissions of a contest, oldest first, are
 * folded into one row per user (points of each problem solved, counted once, and the
 * time of the latest first solve), and the rows are ranked by points, then by time.
 */
module Standings {
  import Judge
  import Store
  import Seqs

  /** `problemPoints`: each contest problem's point value; a later duplicate code wins. */
  function PointsOf(problems: seq<Judge.Problem>): map<string, int> {
    if problems == [] then map[]
    else
      var last := problems[|problems| - 1];
      PointsOf(problems[..|problems| - 1])[last.problemCode := Judge.PointValue(last.points)]
  }

  /** `problemPoints[code] || 100`. */
  function PointOf(points: map<string, int>, code: string): (v: int)
    ensures v != 0
    ensures code !in points ==> v == 100
  {
    if code in points && points[code] != 0 then points[code] else 100
  }

  lemma PrefixOfPrefix<T>(s: seq<T>, i: nat)
    requires i < |s|
    ensures s[..i + 1][..i] == s[..i] && s[..i + 1][i] == s[i]
  {
  }

  /** The codes in the map are those of the contest's problems. */
  lemma {:induction false} PointsOfKeys(problems: seq<Judge.Problem>, code: string)
    ensures code in PointsOf(problems) <==> exists i :: 0 <= i < |problems| && problems[i].problemCode == code
  {
    if problems != [] {
      var init := problems[..|problems| - 1];
      PointsOfKeys(init, code);
      if code in PointsOf(problems) && code != problems[|problems| - 1].problemCode {
        var i :| 0 <= i < |init| && init[i].problemCode == code;
        assert problems[i] == init[i];
      }
      if exists i :: 0 <= i < |problems| && problems[i].problemCode == code {
        var i :| 0 <= i < |problems| && problems[i].problemCode == code;
        if i < |init| {
          assert init[i] == problems[i];
        }
      }
    }
  }

  /** Each code is worth the value of the last problem with that code, `points || 100`. */
  lemma {:induction false} LastDuplicateWins(problems: seq<Judge.Problem>, i: nat)
    requires i < |problems|
    requires forall j :: i < j < |problems| ==> problems[j].problemCode != problems[i].problemCode
    ensures problems[i].problemCode in PointsOf(problems)
    ensures PointOf(PointsOf(problems), problems[i].problemCode) == Judge.PointValue(problems[i].points)
  {
    var init := problems[..|problems| - 1];
    if i < |init| {
      assert init[i] == problems[i];
      LastDuplicateWins(init, i);
    }
  }

  /** The `forEach` of lines 175-177. */
  method ProblemPoints(problems: seq<Judge.Problem>) returns (points: map<string, int>)
    ensures points == PointsOf(problems)
  {
    points := map[];
    var i := 0;
    while i < |problems|
      invariant 0 <= i <= |problems|
      invariant points == PointsOf(problems[..i])
    {
      PrefixOfPrefix(problems, i);
      points := points[problems[i].problemCode := Judge.PointValue(problems[i].points)];
      i := i + 1;
    }
    assert problems[..i] == problems;
  }

  /** `userStats[userId]`: the points so far, the time of the latest first solve, the codes solved. */
  datatype UserStat = UserStat(totalPoints: int, lastAcceptedTime: int, solved: set<string>)

  /** What one submission does to `userStats`. */
  function Absorb(stats: map<Judge.UserId, UserStat>, sub: Store.Snapshot, points: map<string, int>)
    : map<Judge.UserId, UserStat>
  {
    var st := if sub.user in stats then stats[sub.user] else UserStat(0, sub.submittedAt, {});
    if sub.problemCode in st.solved then stats[sub.user := st]
    else
      stats[sub.user := UserStat(st.totalPoints + PointOf(points, sub.problemCode), sub.submittedAt,
                                 st.solved + {sub.problemCode})]
  }

  /** `userStats` after the submissions `subs`, in order. */
  function StatsOf(subs: seq<Store.Snapshot>, points: map<string, int>): map<Judge.UserId, UserStat> {
    if subs == [] then map[] else Absorb(StatsOf(subs[..|subs| - 1], points), subs[|subs| - 1], points)
  }

  /** The keys of `userStats` in the order they were added, which is the order `for...in` visits. */
  function UsersOf(subs: seq<Store.Snapshot>): seq<Judge.UserId> {
    if subs == [] then []
    else
      var users := UsersOf(subs[..|subs| - 1]);
      if subs[|subs| - 1].user in users then users else users + [subs[|subs| - 1].user]
  }

  /** The distinct codes `user` has a submission for, in the order of their first one. */
  function CodesOf(subs: seq<Store.Snapshot>, user: Judge.UserId): seq<string> {
    if subs == [] then []
    else
      var codes := CodesOf(subs[..|subs| - 1], user);
      var last := subs[|subs| - 1];
      if last.user == user && last.problemCode !in codes then codes + [last.problemCode] else codes
  }

  /** The sum of the point values of `codes`. */
  function SumPoints(codes: seq<string>, points: map<string, int>): int {
    if codes == [] then 0 else SumPoints(codes[..|codes| - 1], points) + PointOf(points, codes[|codes| - 1])
  }

  /** One user, once, per user with a submission. */
  lemma {:induction false} UsersOfSpec(subs: seq<Store.Snapshot>)
    ensures Seqs.NoDuplicates(UsersOf(subs))
    ensures forall u :: u in UsersOf(subs) <==> exists i :: 0 <= i < |subs| && subs[i].user == u
  {
    if subs != [] {
      var init := subs[..|subs| - 1];
      UsersOfSpec(init);
      forall u
        ensures u in UsersOf(subs) <==> exists i :: 0 <= i < |subs| && subs[i].user == u
      {
        if u in UsersOf(init) {
          var i :| 0 <= i < |init| && init[i].user == u;
          assert subs[i] == init[i];
        }
        if exists i :: 0 <= i < |subs| && subs[i].user == u {
          var i :| 0 <= i < |subs| && subs[i].user == u;
          if i < |init| {
            assert init[i] == subs[i];
          }
        }
      }
    }
  }

  /** Each problem a user solved, once, in the order of the first solve. */
  lemma {:induction false} CodesOfSpec(subs: seq<Store.Snapshot>, user: Judge.UserId)
    ensures Seqs.NoDuplicates(CodesOf(subs, user))
    ensures forall c :: c in CodesOf(subs, user) <==>
      exists i :: 0 <= i < |subs| && subs[i].user == user && subs[i].problemCode == c
  {
    if subs != [] {
      var init := subs[..|subs| - 1];
      CodesOfSpec(init, user);
      forall c
        ensures c in CodesOf(subs, user) <==>
          exists i :: 0 <= i < |subs| && subs[i].user == user && subs[i].problemCode == c
      {
        if c in CodesOf(init, user) {
          var i :| 0 <= i < |init| && init[i].user == user && init[i].problemCode == c;
          assert subs[i] == init[i];
        }
        if exists i :: 0 <= i < |subs| && subs[i].user == user && subs[i].problemCode == c {
          var i :| 0 <= i < |subs| && subs[i].user == user && subs[i].problemCode == c;
          if i < |init| {
            assert init[i] == subs[i];
          }
        }
      }
    }
  }

  /** Whoever has a problem in `CodesOf` has a submission, so is among the users. */
  lemma CodesOfUser(subs: seq<Store.Snapshot>, user: Judge.UserId)
    ensures CodesOf(subs, user) != [] ==> user in UsersOf(subs)
  {
    CodesOfSpec(subs, user);
    UsersOfSpec(subs);
    if CodesOf(subs, user) != [] {
      var c := CodesOf(subs, user)[0];
      assert c in CodesOf(subs, user);
    }
  }

  lemma SumPointsSnoc(codes: seq<string>, c: string, points: map<string, int>)
    ensures SumPoints(codes + [c], points) == SumPoints(codes, points) + PointOf(points, c)
  {
    assert (codes + [c])[..|codes|] == codes;
  }

  /** `userStats` has an entry exactly for the users with a submission. */
  lemma {:induction false} StatsKeys(subs: seq<Store.Snapshot>, points: map<string, int>)
    ensures forall u :: u in StatsOf(subs, points) <==> u in UsersOf(subs)
  {
    if subs != [] {
      StatsKeys(subs[..|subs| - 1], points);
    }
  }

  /**
   * The entry of each user: its set is the problems that user solved and its points
   * are their values summed, each problem counted once however often it was accepted.
   */
  lemma {:induction false} StatsOfSpec(subs: seq<Store.Snapshot>, points: map<string, int>)
    ensures forall u :: u in StatsOf(subs, points) ==>
      (forall c :: c in StatsOf(subs, points)[u].solved <==> c in CodesOf(subs, u))
      && StatsOf(subs, points)[u].totalPoints == SumPoints(CodesOf(subs, u), points)
  {
    if subs != [] {
      var init := subs[..|subs| - 1];
      var last := subs[|subs| - 1];
      var before := StatsOf(init, points);
      StatsOfSpec(init, points);
      StatsKeys(init, points);
      CodesOfUser(init, last.user);
      SumPointsSnoc(CodesOf(init, last.user), last.problemCode, points);
      forall u | u in StatsOf(subs, points)
        ensures (forall c :: c in StatsOf(subs, points)[u].solved <==> c in CodesOf(subs, u))
          && StatsOf(subs, points)[u].totalPoints == SumPoints(CodesOf(subs, u), points)
      {
        if u == last.user && last.user !in before {
          assert CodesOf(init, u) == [];
        }
      }
    }
  }

  /** No earlier submission is by the same user for the same problem. */
  predicate FirstSolve(subs: seq<Store.Snapshot>, i: nat)
    requires i < |subs|
  {
    forall j :: 0 <= j < i ==> !(subs[j].user == subs[i].user && subs[j].problemCode == subs[i].problemCode)
  }

  /** Before the last submission, being a first solve does not depend on it. */
  lemma FirstSolvePrefix(subs: seq<Store.Snapshot>, i: nat)
    requires i < |subs| - 1
    ensures FirstSolve(subs, i) <==> FirstSolve(subs[..|subs| - 1], i)
  {
    var init := subs[..|subs| - 1];
    assert forall j :: 0 <= j <= i ==> subs[j] == init[j];
  }

  /** The last submission is a first solve when its problem is new for its user. */
  lemma FirstSolveLast(subs: seq<Store.Snapshot>)
    requires subs != []
    ensures FirstSolve(subs, |subs| - 1) <==>
      subs[|subs| - 1].problemCode !in CodesOf(subs[..|subs| - 1], subs[|subs| - 1].user)
  {
    var init := subs[..|subs| - 1];
    var last := subs[|subs| - 1];
    CodesOfSpec(init, last.user);
    assert forall j :: 0 <= j < |init| ==> subs[j] == init[j];
  }

  /** What the last submission does to `u`'s time: a new problem sets it, anything else keeps the entry. */
  lemma LastStep(subs: seq<Store.Snapshot>, points: map<string, int>, u: Judge.UserId)
    requires u in StatsOf(subs, points)
    ensures var init := subs[..|subs| - 1];
      var last := subs[|subs| - 1];
      if last.user == u && last.problemCode !in CodesOf(init, u) then
        StatsOf(subs, points)[u].lastAcceptedTime == last.submittedAt
      else
        u in StatsOf(init, points) && StatsOf(subs, points)[u] == StatsOf(init, points)[u]
  {
    var init := subs[..|subs| - 1];
    StatsOfSpec(init, points);
    StatsKeys(init, points);
    CodesOfUser(init, u);
  }

  /** `lastAcceptedTime` is the time of the user's last first solve. */
  lemma {:induction false} LastTimeSpec(subs: seq<Store.Snapshot>, points: map<string, int>, u: Judge.UserId)
    requires u in StatsOf(subs, points)
    ensures exists i ::
              0 <= i < |subs| && subs[i].user == u && FirstSolve(subs, i)
              && StatsOf(subs, points)[u].lastAcceptedTime == subs[i].submittedAt
              && forall j :: i < j < |subs| && subs[j].user == u ==> !FirstSolve(subs, j)
  {
    var init := subs[..|subs| - 1];
    var last := subs[|subs| - 1];
    LastStep(subs, points, u);
    FirstSolveLast(subs);
    if last.user == u && last.problemCode !in CodesOf(init, u) {
      var i := |subs| - 1;
      assert StatsOf(subs, points)[u].lastAcceptedTime == subs[i].submittedAt;
      assert subs[i].user == u && FirstSolve(subs, i);
    } else {
      assert StatsOf(subs, points)[u] == StatsOf(init, points)[u];
      LastTimeSpec(init, points, u);
      var i :| 0 <= i < |init| && init[i].user == u && FirstSolve(init, i)
                && StatsOf(init, points)[u].lastAcceptedTime == init[i].submittedAt
                && forall j :: i < j < |init| && init[j].user == u ==> !FirstSolve(init, j);
      assert subs[i] == init[i];
      FirstSolvePrefix(subs, i);
      forall j | i < j < |subs| && subs[j].user == u
        ensures !FirstSolve(subs, j)
      {
        if j < |subs| - 1 {
          assert subs[j] == init[j];
          FirstSolvePrefix(subs, j);
        } else {
          assert subs[j] == last && last.problemCode in CodesOf(init, last.user);
        }
      }
      assert subs[i].user == u && FirstSolve(subs, i)
        && StatsOf(subs, points)[u].lastAcceptedTime == subs[i].submittedAt;
    }
  }

  /** The query's `status: 'Accepted'` filter over the contest's submissions. */
  function AcceptedOf(subs: seq<Store.Snapshot>): (r: seq<Store.Snapshot>)
    ensures |r| <= |subs|
    ensures forall x :: x in r <==> x in subs && x.status == Judge.Accepted
  {
    if subs == [] then []
    else
      var init := AcceptedOf(subs[..|subs| - 1]);
      var last := subs[|subs| - 1];
      assert subs == subs[..|subs| - 1] + [last];
      if last.status == Judge.Accepted then init + [last] else init
  }

  /** Submissions ordered by `submittedAt`, as the query returns them. */
  predicate ByTime(subs: seq<Store.Snapshot>) {
    forall i, j :: 0 <= i < j < |subs| ==> subs[i].submittedAt <= subs[j].submittedAt
  }

  /** With the query's order, `lastAcceptedTime` is the latest of the user's first solves. */
  lemma LatestFirstSolve(subs: seq<Store.Snapshot>, points: map<string, int>, u: Judge.UserId, j: nat)
    requires ByTime(subs) && u in StatsOf(subs, points)
    requires j < |subs| && subs[j].user == u && FirstSolve(subs, j)
    ensures subs[j].submittedAt <= StatsOf(subs, points)[u].lastAcceptedTime
  {
    LastTimeSpec(subs, points, u);
  }

  /** One turn of the `forEach` of lines 181-196. */
  method Visit(stats: map<Judge.UserId, UserStat>, users: seq<Judge.UserId>, sub: Store.Snapshot,
               points: map<string, int>)
    returns (stats': map<Judge.UserId, UserStat>, users': seq<Judge.UserId>)
    requires sub.user in stats <==> sub.user in users
    ensures stats' == Absorb(stats, sub, points)
    ensures users' == if sub.user in users then users else users + [sub.user]
  {
    stats', users' := stats, users;
    if sub.user !in stats' {
      stats' := stats'[sub.user := UserStat(0, sub.submittedAt, {})];
      users' := users' + [sub.user];
    }
    var st := stats'[sub.user];
    if sub.problemCode !in st.solved {
      stats' := stats'[sub.user := UserStat(st.totalPoints + PointOf(points, sub.problemCode), sub.submittedAt,
                                            st.solved + {sub.problemCode})];
    }
  }

  /** The `forEach` of lines 181-196. */
  method Aggregate(subs: seq<Store.Snapshot>, points: map<string, int>)
    returns (stats: map<Judge.UserId, UserStat>, users: seq<Judge.UserId>)
    ensures stats == StatsOf(subs, points) && users == UsersOf(subs)
  {
    stats := map[];
    users := [];
    var i := 0;
    while i < |subs|
      invariant 0 <= i <= |subs|
      invariant stats == StatsOf(subs[..i], points) && users == UsersOf(subs[..i])
    {
      PrefixOfPrefix(subs, i);
      StatsKeys(subs[..i], points);
      stats, users := Visit(stats, users, subs[i], points);
      i := i + 1;
    }
    assert subs[..i] == subs;
  }

  /** A leaderboard row. */
  datatype Entry = Entry(userId: Judge.UserId, totalPoints: int, lastAcceptedTime: int)

  /** The rows the `for...in` loop pushes, one per user of `users`, in that order. */
  function RowsOf(users: seq<Judge.UserId>, stats: map<Judge.UserId, UserStat>): (rows: seq<Entry>)
    requires forall u :: u in users ==> u in stats
    ensures |rows| == |users|
    ensures forall k :: 0 <= k < |users| ==>
      rows[k] == Entry(users[k], stats[users[k]].totalPoints, stats[users[k]].lastAcceptedTime)
  {
    if users == [] then []
    else
      var u := users[|users| - 1];
      RowsOf(users[..|users| - 1], stats) + [Entry(u, stats[u].totalPoints, stats[u].lastAcceptedTime)]
  }

  /** The `for...in` loop of lines 199-206. */
  method BuildRows(users: seq<Judge.UserId>, stats: map<Judge.UserId, UserStat>) returns (rows: seq<Entry>)
    requires forall u :: u in users ==> u in stats
    ensures rows == RowsOf(users, stats)
  {
    rows := [];
    var i := 0;
    while i < |users|
      invariant 0 <= i <= |users|
      invariant rows == RowsOf(users[..i], stats)
    {
      PrefixOfPrefix(users, i);
      var u := users[i];
      rows := rows + [Entry(u, stats[u].totalPoints, stats[u].lastAcceptedTime)];
      i := i + 1;
    }
    assert users[..i] == users;
  }

  /** The comparator of lines 209-214 lets `a` come before `b`: more points, or as many and no later. */
  predicate Before(a: Entry, b: Entry) {
    a.totalPoints > b.totalPoints || (a.totalPoints == b.totalPoints && a.lastAcceptedTime <= b.lastAcceptedTime)
  }

  predicate Ranked(s: seq<Entry>) {
    forall i, j :: 0 <= i < j < |s| ==> Before(s[i], s[j])
  }

  /** A row that may precede `e` and every row of `s` may precede every row of a rearrangement of both. */
  lemma BeforeAll(x: Entry, e: Entry, s: seq<Entry>, r: seq<Entry>)
    requires multiset(r) == multiset(s) + multiset{e}
    requires Before(x, e) && forall k :: 0 <= k < |s| ==> Before(x, s[k])
    ensures forall k :: 0 <= k < |r| ==> Before(x, r[k])
  {
    forall k | 0 <= k < |r|
      ensures Before(x, r[k])
    {
      assert r[k] in multiset(r);
      if r[k] != e {
        assert r[k] in multiset(s);
      }
    }
  }

  /** A row that may precede every row of a ranked list can head it. */
  lemma ConsRanked(x: Entry, s: seq<Entry>)
    requires Ranked(s) && forall k :: 0 <= k < |s| ==> Before(x, s[k])
    ensures Ranked([x] + s)
  {
    forall i, j | 0 <= i < j < |s| + 1
      ensures Before(([x] + s)[i], ([x] + s)[j])
    {
      assert ([x] + s)[j] == s[j - 1];
      if i > 0 {
        assert ([x] + s)[i] == s[i - 1];
      }
    }
  }

  /** Put `e` into a ranked list in front of the first row it may precede. */
  function Insert(e: Entry, s: seq<Entry>): (r: seq<Entry>)
    requires Ranked(s)
    ensures Ranked(r)
    ensures multiset(r) == multiset(s) + multiset{e}
  {
    if s == [] || Before(e, s[0]) then
      ConsRanked(e, s);
      [e] + s
    else
      var rest := Insert(e, s[1..]);
      assert s == [s[0]] + s[1..];
      BeforeAll(s[0], e, s[1..], rest);
      ConsRanked(s[0], rest);
      [s[0]] + rest
  }

  /**
   * `leaderboard.sort(...)`: ranked, and a rearrangement of the rows. The order among rows
   * that tie is not part of this contract.
   */
  function Rank(s: seq<Entry>): (r: seq<Entry>)
    ensures Ranked(r)
    ensures multiset(r) == multiset(s)
  {
    if s == [] then []
    else
      assert s == [s[0]] + s[1..];
      Insert(s[0], Rank(s[1..]))
  }

  /** The leaderboard the route builds before it adds the user details. */
  function Standing(problems: seq<Judge.Problem>, subs: seq<Store.Snapshot>): seq<Entry> {
    var points := PointsOf(problems);
    StatsKeys(subs, points);
    Rank(RowsOf(UsersOf(subs), StatsOf(subs, points)))
  }

  /** Lines 164-214 up to the user lookup. */
  method Leaderboard(problems: seq<Judge.Problem>, contestSubs: seq<Store.Snapshot>) returns (board: seq<Entry>)
    ensures board == Standing(problems, AcceptedOf(contestSubs))
  {
    var subs := AcceptedOf(contestSubs);
    var points := ProblemPoints(problems);
    var stats, users := Aggregate(subs, points);
    StatsKeys(subs, points);
    var rows := BuildRows(users, stats);
    board := Rank(rows);
  }

  /** A list without duplicates holds each element once. */
  lemma {:induction false} CountOnce<T>(s: seq<T>, x: T)
    requires Seqs.NoDuplicates(s)
    ensures multiset(s)[x] == if x in s then 1 else 0
  {
    if s != [] {
      var init := s[..|s| - 1];
      assert s == init + [s[|s| - 1]];
      forall i | 0 <= i < |init|
        ensures init[i] == s[i] && init[i] != s[|s| - 1]
      {
      }
      CountOnce(init, x);
    }
  }

  /** An element at two places is counted at least twice. */
  lemma CountTwice<T>(s: seq<T>, i: nat, j: nat)
    requires i < j < |s|
    ensures s[i] == s[j] ==> multiset(s)[s[i]] >= 2
  {
    assert s == s[..j] + [s[j]] + s[j + 1..];
    assert s[i] == s[..j][i];
  }

  /** Each row is the row of its user, as `userStats` has it. */
  lemma StandingRows(problems: seq<Judge.Problem>, subs: seq<Store.Snapshot>)
    ensures forall e :: e in Standing(problems, subs) ==>
      e.userId in StatsOf(subs, PointsOf(problems))
      && e.totalPoints == SumPoints(CodesOf(subs, e.userId), PointsOf(problems))
      && e.lastAcceptedTime == StatsOf(subs, PointsOf(problems))[e.userId].lastAcceptedTime
  {
    var points := PointsOf(problems);
    StatsOfSpec(subs, points);
    StatsKeys(subs, points);
    var rows := RowsOf(UsersOf(subs), StatsOf(subs, points));
    forall e | e in Standing(problems, subs)
      ensures e.userId in StatsOf(subs, points)
      && e.totalPoints == SumPoints(CodesOf(subs, e.userId), points)
      && e.lastAcceptedTime == StatsOf(subs, points)[e.userId].lastAcceptedTime
    {
      assert e in multiset(rows);
      var k :| 0 <= k < |rows| && rows[k] == e;
    }
  }

  /** Some row is `u`'s. */
  predicate HasRow(s: seq<Entry>, u: Judge.UserId) {
    exists k :: 0 <= k < |s| && s[k].userId == u
  }

  /** Rearranging rows keeps who has one. */
  lemma HasRowPermuted(a: seq<Entry>, b: seq<Entry>, u: Judge.UserId)
    requires multiset(a) == multiset(b)
    ensures HasRow(a, u) ==> HasRow(b, u)
  {
    if HasRow(a, u) {
      var k :| 0 <= k < |a| && a[k].userId == u;
      assert a[k] in multiset(b);
      var m :| 0 <= m < |b| && b[m] == a[k];
    }
  }

  /** A user has a row exactly when they have a submission in the query's result. */
  lemma StandingUsers(problems: seq<Judge.Problem>, subs: seq<Store.Snapshot>, u: Judge.UserId)
    ensures HasRow(Standing(problems, subs), u) <==> exists i :: 0 <= i < |subs| && subs[i].user == u
  {
    var points := PointsOf(problems);
    StatsKeys(subs, points);
    UsersOfSpec(subs);
    var users := UsersOf(subs);
    var rows := RowsOf(users, StatsOf(subs, points));
    var board := Standing(problems, subs);
    HasRowPermuted(rows, board, u);
    HasRowPermuted(board, rows, u);
    if HasRow(rows, u) {
      var m :| 0 <= m < |rows| && rows[m].userId == u;
      assert users[m] == u;
    }
    if u in users {
      var m :| 0 <= m < |users| && users[m] == u;
      assert rows[m].userId == u;
    }
  }

  /** A user has an accepted submission exactly when the filter keeps one of theirs. */
  lemma AcceptedUsers(contestSubs: seq<Store.Snapshot>, u: Judge.UserId)
    ensures (exists k :: 0 <= k < |AcceptedOf(contestSubs)| && AcceptedOf(contestSubs)[k].user == u) <==>
      exists i :: 0 <= i < |contestSubs| && contestSubs[i].user == u && contestSubs[i].status == Judge.Accepted
  {
    var acc := AcceptedOf(contestSubs);
    if k :| 0 <= k < |acc| && acc[k].user == u {
      assert acc[k] in acc;
      var i :| 0 <= i < |contestSubs| && contestSubs[i] == acc[k];
      assert contestSubs[i].user == u && contestSubs[i].status == Judge.Accepted;
    }
    forall i | 0 <= i < |contestSubs| && contestSubs[i].user == u && contestSubs[i].status == Judge.Accepted
      ensures exists k :: 0 <= k < |acc| && acc[k].user == u
    {
      assert contestSubs[i] in acc;
      var k :| 0 <= k < |acc| && acc[k] == contestSubs[i];
      assert acc[k].user == u;
    }
  }

  /**
   * The route's leaderboard has a row for a user exactly when that user has an accepted
   * submission among the contest's submissions.
   */
  lemma LeaderboardUsers(problems: seq<Judge.Problem>, contestSubs: seq<Store.Snapshot>, u: Judge.UserId)
    ensures HasRow(Standing(problems, AcceptedOf(contestSubs)), u) <==>
      exists i :: 0 <= i < |contestSubs| && contestSubs[i].user == u && contestSubs[i].status == Judge.Accepted
  {
    StandingUsers(problems, AcceptedOf(contestSubs), u);
    AcceptedUsers(contestSubs, u);
  }

  /** Rows built from a list of distinct users belong to distinct users. */
  lemma RowIdsDistinct(users: seq<Judge.UserId>, stats: map<Judge.UserId, UserStat>)
    requires forall u :: u in users ==> u in stats
    requires Seqs.NoDuplicates(users)
    ensures forall m, n :: 0 <= m < n < |RowsOf(users, stats)| ==>
      RowsOf(users, stats)[m].userId != RowsOf(users, stats)[n].userId
  {
    var rows := RowsOf(users, stats);
    forall m, n | 0 <= m < n < |rows|
      ensures rows[m].userId != rows[n].userId
    {
      assert rows[m].userId == users[m] && rows[n].userId == users[n];
    }
  }

  /** Rearranging rows whose users are distinct keeps them distinct. */
  lemma DistinctIdsPermuted(a: seq<Entry>, b: seq<Entry>)
    requires multiset(a) == multiset(b)
    requires forall m, n :: 0 <= m < n < |a| ==> a[m].userId != a[n].userId
    ensures forall i, j :: 0 <= i < j < |b| ==> b[i].userId != b[j].userId
  {
    assert Seqs.NoDuplicates(a);
    forall i, j | 0 <= i < j < |b|
      ensures b[i].userId != b[j].userId
    {
      assert b[i] in multiset(a) && b[j] in multiset(a);
      var m :| 0 <= m < |a| && a[m] == b[i];
      var n :| 0 <= n < |a| && a[n] == b[j];
      CountTwice(b, i, j);
      CountOnce(a, b[i]);
    }
  }

  /** No user has two rows. */
  lemma StandingDistinct(problems: seq<Judge.Problem>, subs: seq<Store.Snapshot>)
    ensures forall i, j :: 0 <= i < j < |Standing(problems, subs)| ==>
      Standing(problems, subs)[i].userId != Standing(problems, subs)[j].userId
  {
    var points := PointsOf(problems);
    StatsKeys(subs, points);
    UsersOfSpec(subs);
    var rows := RowsOf(UsersOf(subs), StatsOf(subs, points));
    RowIdsDistinct(UsersOf(subs), StatsOf(subs, points));
    DistinctIdsPermuted(rows, Standing(problems, subs));
  }
}
