/**
 * The team table of app/models/team.server.ts: lookup by id and creation of
 * a team bound to the current contest.
 */
module TeamServer {
  import opened Wrappers
  import opened Records
  import ContestServer

  /** `findUnique({ where: { id } })` over a list of rows. */
  function FindTeam(teams: seq<Team>, id: TeamId): (r: Option<Team>)
    ensures r.Some? ==> r.value in teams && r.value.id == id
    ensures r.None? <==> forall t :: t in teams ==> t.id != id
  {
    if |teams| == 0 then None
    else if teams[0].id == id then Some(teams[0])
    else FindTeam(teams[1..], id)
  }

  /** With a unique primary key the lookup finds the one row that has the id. */
  lemma {:induction false} FindTeamUnique(teams: seq<Team>, k: nat)
    requires UniqueTeamIds(teams) && k < |teams|
    ensures FindTeam(teams, teams[k].id) == Some(teams[k])
  {
    if k > 0 {
      assert teams[0].id != teams[k].id;
      FindTeamUnique(teams[1..], k - 1);
    }
  }

  /** The message thrown when no contest is accepting applications. */
  const NoContestFound: string := "No contest found"

  /**
   * The team table. Ids come from a counter above every stored id, so the
   * primary key stays unique.
   */
  class TeamTable {
    var teams: seq<Team>
    var nextId: TeamId

    ghost predicate Valid()
      reads this
    {
      && UniqueTeamIds(teams)
      && forall i :: 0 <= i < |teams| ==> teams[i].id < nextId
    }

    constructor ()
      ensures Valid() && teams == []
    {
      teams := [];
      nextId := 0;
    }

    /** `getTeam`: the row with the id, or `null`. */
    function GetTeam(id: TeamId): (r: Option<Team>)
      reads this
      requires Valid()
      ensures r.Some? ==> r.value in teams && r.value.id == id
      ensures r.None? <==> forall t :: t in teams ==> t.id != id
    {
      FindTeam(teams, id)
    }

    /**
     * `createTeam`: with a current contest, inserts one team of that contest
     * with the given name and advisor and no progress report; otherwise fails
     * with "No contest found" and leaves the table as it was.
     */
    method CreateTeam(name: string, advisorId: UserId, contestTable: ContestServer.ContestTable, now: Timestamp)
      returns (r: Result<Team>)
      requires Valid()
      modifies this
      ensures Valid()
      ensures var current := ContestServer.GetCurrentContest(contestTable.contests, now);
        match current
        case None =>
          r == Failure(NoContestFound) && teams == old(teams) && nextId == old(nextId)
        case Some(contestId) =>
          && r.Success?
          && r.value == Team(r.value.id, name, advisorId, contestId, None)
          && (forall t :: t in old(teams) ==> t.id != r.value.id)
          && teams == old(teams) + [r.value]
      ensures r.Success? ==> GetTeam(r.value.id) == Some(r.value)
    {
      var current := ContestServer.GetCurrentContest(contestTable.contests, now);
      if current.Some? {
        var team := Team(nextId, name, advisorId, current.value, None);
        teams := teams + [team];
        nextId := nextId + 1;
        FindTeamUnique(teams, |teams| - 1);
        r := Success(team);
      } else {
        r := Failure(NoContestFound);
      }
    }
  }
}
