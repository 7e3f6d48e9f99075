/**
 * The contest queries of app/models/contest.server.ts over a snapshot of the
 * contest and team tables, and the contest table itself for `createContest`.
 * A `where` is a filter, an `orderBy` a sort and `findFirst` the first row.
 */
module ContestServer {
  import opened Wrappers
  import opened Records
  import Common

  /** `now` lies in the contest's application window, both ends included. */
  predicate ApplicationOpen(c: Contest, now: Timestamp) {
    c.applicationStart <= now && c.applicationEnd >= now
  }

  /** The `where` of `getCurrentContest`, as a predicate on rows. */
  function OpenAt(now: Timestamp): (p: Contest -> bool)
    ensures forall c :: p(c) == ApplicationOpen(c, now)
  {
    c => ApplicationOpen(c, now)
  }

  /** `orderBy: { createdAt: "desc" }` holds of the sequence. */
  ghost predicate NewestFirst(cs: seq<Contest>) {
    forall i, j :: 0 <= i < j < |cs| ==> cs[i].createdAt >= cs[j].createdAt
  }

  /** The first row of a newest-first sequence is at least as new as every row of it. */
  lemma HeadIsNewest(sorted: seq<Contest>)
    requires NewestFirst(sorted) && |sorted| > 0
    ensures forall x :: x in sorted ==> x.createdAt <= sorted[0].createdAt
  {
    forall x | x in sorted ensures x.createdAt <= sorted[0].createdAt {
      var k :| 0 <= k < |sorted| && sorted[k] == x;
    }
  }

  /** A row at least as new as every row of a newest-first sequence can go in front of it. */
  lemma NewestFirstCons(head: Contest, rest: seq<Contest>)
    requires NewestFirst(rest)
    requires forall x :: x in rest ==> x.createdAt <= head.createdAt
    ensures NewestFirst([head] + rest)
  {
    var r := [head] + rest;
    forall i, j | 0 <= i < j < |r| ensures r[i].createdAt >= r[j].createdAt {
      if i == 0 {
        assert r[j] in rest;
      } else {
        assert r[i] == rest[i - 1] && r[j] == rest[j - 1];
      }
    }
  }

  /** Places `c` into a newest-first sequence. */
  function Insert(c: Contest, sorted: seq<Contest>): (r: seq<Contest>)
    requires NewestFirst(sorted)
    ensures NewestFirst(r)
    ensures forall x :: x in r ==> x == c || x in sorted
    ensures multiset(r) == multiset(sorted) + multiset{c}
  {
    if |sorted| == 0 then [c]
    else if c.createdAt >= sorted[0].createdAt then
      HeadIsNewest(sorted);
      NewestFirstCons(c, sorted);
      [c] + sorted
    else
      var head, tail := sorted[0], sorted[1..];
      assert sorted == [head] + tail;
      HeadIsNewest(sorted);
      var rest := Insert(c, tail);
      NewestFirstCons(head, rest);
      [head] + rest
  }

  /** The rows reordered by creation time, newest first (the order among equal times is the database's). */
  function SortNewestFirst(cs: seq<Contest>): (r: seq<Contest>)
    ensures NewestFirst(r)
    ensures multiset(r) == multiset(cs)
  {
    if |cs| == 0 then []
    else
      assert cs == [cs[0]] + cs[1..];
      Insert(cs[0], SortNewestFirst(cs[1..]))
  }

  /** `c` is open at `now` and no contest open at `now` was created after it. */
  ghost predicate IsLatestOpen(c: Contest, contests: seq<Contest>, now: Timestamp) {
    && ApplicationOpen(c, now)
    && forall d :: d in contests && ApplicationOpen(d, now) ==> d.createdAt <= c.createdAt
  }

  /**
   * `getCurrentContest`: the id of the most recently created contest whose
   * application window holds `now`, or none when no window does.
   */
  function GetCurrentContest(contests: seq<Contest>, now: Timestamp): (r: Option<ContestId>)
    ensures r.None? <==> forall c :: c in contests ==> !ApplicationOpen(c, now)
    ensures r.Some? ==> exists c :: c in contests && c.id == r.value && IsLatestOpen(c, contests, now)
  {
    var found := Common.Filter(contests, OpenAt(now));
    var open := SortNewestFirst(found);
    assert forall d :: d in found <==> d in multiset(open);
    if |open| == 0 then
      forall d | d in contests ensures !ApplicationOpen(d, now) {
        assert d !in multiset(open);
        assert d !in found;
        assert !OpenAt(now)(d);
      }
      None
    else
      var c := open[0];
      assert c in multiset(open);
      forall d | d in contests && ApplicationOpen(d, now) ensures d.createdAt <= c.createdAt {
        assert OpenAt(now)(d);
        assert d in found;
        assert d in multiset(open);
        var k :| 0 <= k < |open| && open[k] == d;
      }
      assert c in found;
      Some(c.id)
  }

  /** `getContests`: every contest, newest first. */
  function GetContests(contests: seq<Contest>): (r: seq<Contest>)
    ensures multiset(r) == multiset(contests)
    ensures NewestFirst(r)
  {
    SortNewestFirst(contests)
  }

  /** `getContest`: `findUnique({ where: { id } })`, the contest with the id or `null`. */
  function GetContest(contests: seq<Contest>, id: ContestId): (r: Option<Contest>)
    ensures r.Some? ==> r.value in contests && r.value.id == id
    ensures r.None? <==> forall c :: c in contests ==> c.id != id
  {
    if |contests| == 0 then None
    else if contests[0].id == id then Some(contests[0])
    else GetContest(contests[1..], id)
  }

  /** A contest row with its `teams` relation included. */
  datatype ContestWithTeams = ContestWithTeams(contest: Contest, teams: seq<Team>)

  /** `where: { teams: { some: { advisorId } } }`. */
  function HasTeamOf(teams: seq<Team>, advisorId: UserId): (p: Contest -> bool)
    ensures forall c :: p(c) <==> exists t :: t in teams && t.contestId == c.id && t.advisorId == advisorId
  {
    (c: Contest) => exists t :: t in teams && t.contestId == c.id && t.advisorId == advisorId
  }

  /** `include: { teams: true }`: the teams that belong to the contest. */
  function TeamsOf(teams: seq<Team>, id: ContestId): seq<Team> {
    Common.Filter(teams, (t: Team) => t.contestId == id)
  }

  /** The rows of the `findMany` in `getAdvisorContests`, in table order. */
  function AdvisorContestRows(contests: seq<Contest>, teams: seq<Team>, advisorId: UserId): (rows: seq<ContestWithTeams>)
    ensures var found := Common.Filter(contests, HasTeamOf(teams, advisorId));
      |rows| == |found| && forall k :: 0 <= k < |rows| ==> rows[k].contest == found[k]
    ensures forall k :: 0 <= k < |rows| ==> rows[k].teams == TeamsOf(teams, rows[k].contest.id)
    ensures forall r :: r in rows ==>
      r.contest in contests && exists t :: t in teams && t.contestId == r.contest.id && t.advisorId == advisorId
  {
    var found := Common.Filter(contests, HasTeamOf(teams, advisorId));
    var rows := seq(|found|, k requires 0 <= k < |found| => ContestWithTeams(found[k], TeamsOf(teams, found[k].id)));
    forall r | r in rows
      ensures r.contest in contests && exists t :: t in teams && t.contestId == r.contest.id && t.advisorId == advisorId
    {
      var k :| 0 <= k < |rows| && rows[k] == r;
      assert found[k] in found;
      assert HasTeamOf(teams, advisorId)(found[k]);
    }
    rows
  }

  /** The predicate handed to `partition`: `contest.id === currentContest?.id`. */
  function IsCurrent(current: Option<ContestId>): (p: ContestWithTeams -> bool)
    ensures forall r :: p(r) <==> current.Some? && r.contest.id == current.value
  {
    (r: ContestWithTeams) => current.Some? && r.contest.id == current.value
  }

  /** Distinct contest ids stay distinct among the rows of an advisor. */
  lemma AdvisorRowsUnique(contests: seq<Contest>, teams: seq<Team>, advisorId: UserId)
    requires UniqueContestIds(contests)
    ensures var rows := AdvisorContestRows(contests, teams, advisorId);
      forall k, l :: 0 <= k < l < |rows| ==> rows[k].contest.id != rows[l].contest.id
  {
    var idx := Common.FilterPositions(contests, HasTeamOf(teams, advisorId));
  }

  /** With distinct contest ids at most one row is the current contest's. */
  lemma {:induction false} AtMostOneCurrent(rows: seq<ContestWithTeams>, current: Option<ContestId>)
    requires forall k, l :: 0 <= k < l < |rows| ==> rows[k].contest.id != rows[l].contest.id
    ensures |Common.Filter(rows, IsCurrent(current))| <= 1
  {
    if |rows| > 0 {
      var n := |rows| - 1;
      var init := rows[..n];
      if IsCurrent(current)(rows[n]) {
        forall i | 0 <= i < |init| ensures !IsCurrent(current)(init[i]) {
          assert init[i] == rows[i];
        }
        Common.FilterNone(init, IsCurrent(current));
      } else {
        AtMostOneCurrent(init, current);
      }
    }
  }

  /**
   * `getAdvisorContests`: the contests with a team of the advisor, split into
   * the current contest's row and the others, each bucket in table order.
   */
  method GetAdvisorContests(contests: seq<Contest>, teams: seq<Team>, advisorId: UserId, now: Timestamp)
    returns (current: seq<ContestWithTeams>, past: seq<ContestWithTeams>)
    ensures var rows := AdvisorContestRows(contests, teams, advisorId);
      var cur := GetCurrentContest(contests, now);
      && current == Common.Filter(rows, IsCurrent(cur))
      && past == Common.Filter(rows, Common.Not(IsCurrent(cur)))
    ensures forall r :: r in current || r in past ==>
      r.contest in contests && exists t :: t in teams && t.contestId == r.contest.id && t.advisorId == advisorId
    ensures GetCurrentContest(contests, now).None? ==> current == []
    ensures forall r :: r in current ==> Some(r.contest.id) == GetCurrentContest(contests, now)
    ensures UniqueContestIds(contests) ==> |current| <= 1
  {
    var cur := GetCurrentContest(contests, now);
    var rows := AdvisorContestRows(contests, teams, advisorId);
    current, past := Common.Partition(rows, IsCurrent(cur));
    if cur.None? {
      Common.FilterNone(rows, IsCurrent(cur));
    }
    if UniqueContestIds(contests) {
      AdvisorRowsUnique(contests, teams, advisorId);
      AtMostOneCurrent(rows, cur);
    }
  }

  /**
   * The contest table. Ids come from a counter above every stored id, so the
   * primary key stays unique.
   */
  class ContestTable {
    var contests: seq<Contest>
    var nextId: ContestId

    ghost predicate Valid()
      reads this
    {
      && UniqueContestIds(contests)
      && forall i :: 0 <= i < |contests| ==> contests[i].id < nextId
    }

    constructor ()
      ensures Valid() && contests == []
    {
      contests := [];
      nextId := 0;
    }

    /**
     * `createContest`: inserts one row with the given application window.
     * The row is stamped with `now` as its creation time; every column the
     * call does not set takes its value from `defaults`, standing for the
     * schema's column defaults.
     */
    method CreateContest(applicationStart: Timestamp, applicationEnd: Timestamp, now: Timestamp, defaults: Contest)
      returns (c: Contest)
      requires Valid()
      modifies this
      ensures Valid()
      ensures c == defaults.(id := c.id, createdAt := now,
                             applicationStart := applicationStart, applicationEnd := applicationEnd)
      ensures forall d :: d in old(contests) ==> d.id != c.id
      ensures contests == old(contests) + [c]
    {
      c := defaults.(id := nextId, createdAt := now,
                     applicationStart := applicationStart, applicationEnd := applicationEnd);
      contests := contests + [c];
      nextId := nextId + 1;
    }
  }
}
