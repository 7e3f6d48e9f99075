/**
 * The database rows the modelled code reads and writes. Dates are integer
 * timestamps and every identifier is a natural number.
 */
module Records {
  import opened Wrappers

  type Timestamp = int
  type ContestId = nat
  type TeamId = nat
  type UserId = nat

  /** A contest: its five phase windows, its team bounds and its creation time. */
  datatype Contest = Contest(
    id: ContestId,
    createdAt: Timestamp,
    applicationStart: Timestamp,
    applicationEnd: Timestamp,
    letterUploadStart: Timestamp,
    letterUploadEnd: Timestamp,
    designReportStart: Timestamp,
    designReportEnd: Timestamp,
    techControlsStart: Timestamp,
    techControlsEnd: Timestamp,
    finalRaceStart: Timestamp,
    finalRaceEnd: Timestamp,
    minTeamSize: int,
    maxTeamSize: int,
    minTeamNameLength: int,
    maxTeamNameLength: int)

  /** A team of one contest, created by its advisor; the progress report path is `null` until uploaded. */
  datatype Team = Team(
    id: TeamId,
    name: string,
    advisorId: UserId,
    contestId: ContestId,
    progressReportPath: Option<string>)

  /** A user's membership of a team; `pilotingResponsibility` is the raw column value, `null` when unset. */
  datatype TeamMember = TeamMember(
    teamId: TeamId,
    userId: UserId,
    isCaptain: bool,
    pilotingResponsibility: Option<string>)

  /** No two contests of the snapshot share an id (the table's primary key). */
  predicate UniqueContestIds(contests: seq<Contest>) {
    forall i, j :: 0 <= i < j < |contests| ==> contests[i].id != contests[j].id
  }

  /** No two teams of the snapshot share an id (the table's primary key). */
  predicate UniqueTeamIds(teams: seq<Team>) {
    forall i, j :: 0 <= i < j < |teams| ==> teams[i].id != teams[j].id
  }
}
