/**
 * The application checklist of app/components/checks/Application.tsx: six
 * named checks projected from a team, its members and its contest, and the
 * number of them that hold.
 */
module ApplicationChecks {
  import opened Wrappers
  import opened Records

  /** One checklist entry; the label is display text and is left out. */
  datatype Check = Check(key: string, checked: bool)

  /** The check keys, in display order. */
  const CheckKeys: seq<string> := ["name", "members", "report", "captain", "pilot", "copilot"]

  /** JavaScript's `s.some(p)`. */
  function Any<T>(s: seq<T>, p: T -> bool): (b: bool)
    ensures b <==> exists i :: 0 <= i < |s| && p(s[i])
  {
    if |s| == 0 then false else p(s[0]) || Any(s[1..], p)
  }

  /** JavaScript's `Boolean(path)` on a nullable string: set and not empty. */
  predicate Truthy(path: Option<string>) {
    match path
    case None => false
    case Some(p) => |p| > 0
  }

  /**
   * `getChecks`: the six checks in order. `teamSize` stands for the helper of
   * the same name, whose definition is not part of this model.
   */
  function GetChecks(team: Team, members: seq<TeamMember>, contest: Contest,
                     teamSize: seq<TeamMember> -> int): (cs: seq<Check>)
    ensures |cs| == |CheckKeys| == 6
    ensures forall i :: 0 <= i < |cs| ==> cs[i].key == CheckKeys[i]
    ensures cs[0].checked <==> contest.minTeamNameLength <= |team.name| <= contest.maxTeamNameLength
    ensures cs[1].checked <==> contest.minTeamSize <= teamSize(members) <= contest.maxTeamSize
    ensures cs[2].checked <==> team.progressReportPath.Some? && team.progressReportPath.value != ""
    ensures cs[3].checked <==> exists m :: m in members && m.isCaptain
    ensures cs[4].checked <==> exists m :: m in members && m.pilotingResponsibility == Some("pilot")
    ensures cs[5].checked <==> exists m :: m in members && m.pilotingResponsibility == Some("copilot")
  {
    [ Check("name", |team.name| >= contest.minTeamNameLength && |team.name| <= contest.maxTeamNameLength),
      Check("members", teamSize(members) >= contest.minTeamSize && teamSize(members) <= contest.maxTeamSize),
      Check("report", Truthy(team.progressReportPath)),
      Check("captain", Any(members, (m: TeamMember) => m.isCaptain)),
      Check("pilot", Any(members, (m: TeamMember) => m.pilotingResponsibility == Some("pilot"))),
      Check("copilot", Any(members, (m: TeamMember) => m.pilotingResponsibility == Some("copilot"))) ]
  }

  /** One for a check that holds, zero otherwise. */
  function Indicator(b: bool): nat {
    if b then 1 else 0
  }

  /** `checks.filter((check) => check.checked).length`. */
  function CheckedCount(cs: seq<Check>): nat {
    if |cs| == 0 then 0 else Indicator(cs[0].checked) + CheckedCount(cs[1..])
  }

  /** The count never exceeds the number of checks, and reaches it exactly when every check holds. */
  lemma {:induction false} CheckedCountBounds(cs: seq<Check>)
    ensures CheckedCount(cs) <= |cs|
    ensures CheckedCount(cs) == |cs| <==> forall i :: 0 <= i < |cs| ==> cs[i].checked
    ensures CheckedCount(cs) == 0 <==> forall i :: 0 <= i < |cs| ==> !cs[i].checked
  {
    if |cs| > 0 {
      CheckedCountBounds(cs[1..]);
      assert forall i :: 1 <= i < |cs| ==> cs[i] == cs[1..][i - 1];
    }
  }

  /**
   * The checked count of `Completion`: the number of the six conditions that
   * hold, at most 6, and 6 exactly when all of them hold.
   */
  function Completion(team: Team, members: seq<TeamMember>, contest: Contest,
                      teamSize: seq<TeamMember> -> int): (n: nat)
    ensures n <= 6
    ensures var cs := GetChecks(team, members, contest, teamSize);
      n == Indicator(cs[0].checked) + Indicator(cs[1].checked) + Indicator(cs[2].checked)
         + Indicator(cs[3].checked) + Indicator(cs[4].checked) + Indicator(cs[5].checked)
    ensures n == 6 <==>
      && contest.minTeamNameLength <= |team.name| <= contest.maxTeamNameLength
      && contest.minTeamSize <= teamSize(members) <= contest.maxTeamSize
      && team.progressReportPath.Some? && team.progressReportPath.value != ""
      && (exists m :: m in members && m.isCaptain)
      && (exists m :: m in members && m.pilotingResponsibility == Some("pilot"))
      && (exists m :: m in members && m.pilotingResponsibility == Some("copilot"))
  {
    var cs := GetChecks(team, members, contest, teamSize);
    CheckedCountBounds(cs);
    assert CheckedCount(cs) == Indicator(cs[0].checked) + CheckedCount(cs[1..]);
    assert CheckedCount(cs[1..]) == Indicator(cs[1].checked) + CheckedCount(cs[2..]);
    assert CheckedCount(cs[2..]) == Indicator(cs[2].checked) + CheckedCount(cs[3..]);
    assert CheckedCount(cs[3..]) == Indicator(cs[3].checked) + CheckedCount(cs[4..]);
    assert CheckedCount(cs[4..]) == Indicator(cs[4].checked) + CheckedCount(cs[5..]);
    assert CheckedCount(cs[5..]) == Indicator(cs[5].checked) + CheckedCount(cs[6..]);
    CheckedCount(cs)
  }

  /**
   * A named, sized team with no report and no responsibilities passes two of
   * the six checks (name and members).
   */
  lemma FreshTeamPassesTwo()
    ensures
      var contest := Contest(0, 0, 0, 0, 0, 0, 0, 0, 0, 0, 0, 0, 1, 15, 1, 10);
      var team := Team(0, "Team1", 0, 0, None);
      var cs := GetChecks(team, [], contest, (ms: seq<TeamMember>) => |ms| + 1);
      && [cs[0].checked, cs[1].checked, cs[2].checked, cs[3].checked, cs[4].checked, cs[5].checked]
         == [true, true, false, false, false, false]
      && Completion(team, [], contest, (ms: seq<TeamMember>) => |ms| + 1) == 2
  {
  }
}
