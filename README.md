# Contest management: a verified model of the rule logic

This project models the self-contained logic of a contest-management web
application for a vehicle race. Administrators create contests with five
phase windows: application, letters, design report, technical controls and
final race. Advisors register teams in the contest whose application window
is open. Teams track an application checklist. The model covers these parts:

- the order-preserving list `partition`, in both of its copies;
- the contest timeline and its active period;
- the six-item application checklist and its checked count;
- the `numericString` and `dateRangeString` form-field parsers;
- the contest queries `getCurrentContest`, `getContests`, `getContest` and
  `getAdvisorContests`, and the `createContest` insert;
- the team table with `getTeam` and `createTeam`.

Dates are integer timestamps. Database tables are sequences of records.
A Prisma `where` is a filter, an `orderBy` is a sort and a `findFirst` is
the first element. The clock (`new Date()`) is a `now` parameter.

Modules, one per source file:

- `Wrappers` holds `Option` (JavaScript `null`/`undefined`) and `Result`
  (a value or a thrown `Error`).
- `Records` holds the rows `Contest`, `Team` and `TeamMember`.
- `Common` models `app/utils/common.ts` and `DefaultPartition` models
  `utils/partition.ts`. Both partition methods are proved against `Common.Filter`.
- `Timeline` models `app/components/ContestTimeline.tsx`.
- `ApplicationChecks` models `app/components/checks/Application.tsx`.
- `FormFields` models `app/utils/zod.ts`.
- `ContestServer` models `app/models/contest.server.ts`. Its queries are
  pure functions over a snapshot. `ContestTable` is a class for `createContest`.
- `TeamServer` models `app/models/team.server.ts`. `TeamTable` is a class
  holding the team rows.

Three facts about the code shape the model:

- The checklist asks only for *some* member with each of the captain, pilot
  and copilot responsibilities (app/components/checks/Application.tsx:36-52),
  not for exactly one.
- When several contests are open, the code takes a most recently created one,
  ordering by `createdAt` descending (app/models/contest.server.ts:9).
- No modelled code checks whether a whole contest, from its first window to
  its last, is under way; only the application window selects the current
  contest.

Splitting on the range separator has one detail worth knowing. The separator
is the five characters U+0020 U+00E2 U+20AC U+201C U+0020: an en dash stored
as UTF-8 and read back as Windows-1252. It begins and ends with a space, so
`a + sep + b` can split early even when `a` has no separator of its own.
`FormFields.SeparatorOverlap` shows such an `a`. `FormFields.SplitJoined`
therefore requires that no separator starts inside `a` and runs into the
separator that follows it. No date written in the form's `MMM D, YYYY` layout
ends that way.

## Model

| member | source | states |
|---|---|---|
| `Common.Filter` | app/utils/common.spec.ts:5-13 | the `filter` the test compares against: no longer than the input, every kept item satisfies the predicate, and an item is kept iff it is in the input and satisfies the predicate |
| `Common.Partition` | app/utils/common.ts:1-12 | the loop's first bucket is the input filtered by the predicate and the second the input filtered by its negation, so every item of the first bucket satisfies the predicate, none of the second does, and empty input gives two empty buckets (by `Common.Filter`) |
| `Common.FilterNone` | app/utils/common.ts:4-10 | when no item satisfies the predicate, the matches bucket is empty |
| `Common.FilterLengths` | app/utils/common.ts:4-10 | the two bucket lengths add up to the input length |
| `Common.FilterMultisets` | app/utils/common.ts:4-10 | the two buckets together are the input, with multiplicity |
| `Common.FilterPositions` | app/utils/common.ts:4-10 | a bucket is the input restricted to exactly the positions whose item satisfies the predicate, in increasing order, so relative order is preserved |
| `DefaultPartition.Partition` | utils/partition.ts:1-15 | the second copy's buckets are the input filtered by the predicate and by its negation, the same specification as the first copy, so every lemma about `Common.Filter` holds of it too |
| `DefaultPartition.SameAsCommon` | utils/partition.ts:1-15 | both copies return the same two buckets for every input and predicate |
| `Timeline.Periods` | app/components/ContestTimeline.tsx:14-54 | five periods with keys application, letters, design, technical-controls, final-race, in that order, each window taken from its own pair of contest columns |
| `Timeline.FindIndex` | app/components/ContestTimeline.tsx:57-59 | `findIndex`: -1 or an index whose item satisfies the predicate with no earlier item satisfying it; -1 exactly when no item does |
| `Timeline.ActivePeriodIndex` | app/components/ContestTimeline.tsx:56-59 | the index is -1 or in 0..4; a non-negative index has start <= now <= end and no earlier period holds now; -1 exactly when no period holds now |
| `Timeline.BoundsInclusive` | app/components/ContestTimeline.tsx:58 | now equal to a period's start or end selects that period when no earlier one holds now |
| `Timeline.EarlierPeriodWins` | app/components/ContestTimeline.tsx:57-59 | when two windows overlap at now, the later one is never selected |
| `ApplicationChecks.Any` | app/components/checks/Application.tsx:36-52 | `some`: true iff some item satisfies the predicate |
| `ApplicationChecks.GetChecks` | app/components/checks/Application.tsx:12-55 | six checks keyed name, members, report, captain, pilot, copilot; each holds iff its condition holds (name length in bounds, team size in bounds, a non-empty report path, some captain, some pilot, some copilot) |
| `ApplicationChecks.CheckedCountBounds` | app/components/checks/Application.tsx:75-77 | the checked count is at most the number of checks, equals it iff every check holds, and is zero iff none holds |
| `ApplicationChecks.Completion` | app/components/checks/Application.tsx:75-77 | the checked count is the number of the six checks that hold, at most 6, and 6 iff all six conditions hold |
| `ApplicationChecks.FreshTeamPassesTwo` | app/components/checks/Application.tsx:12-55 | a team named "Team1" with no members, no report and a team size of 1 passes the name and members checks only, so two of six |
| `FormFields.MatchesDigits` | app/utils/zod.ts:9 | `^\d+$` holds iff the string is non-empty and every character is 0-9 |
| `FormFields.NumericString` | app/utils/zod.ts:9 | accepted iff the value is a non-empty string of digits 0-9; the result is the decimal value of the digits |
| `FormFields.ToDecimal` | app/utils/zod.ts:9 | the decimal rendering of a natural is a non-empty digit string with no leading zero; it starts with '0' only for 0 |
| `FormFields.DecimalValueOfToDecimal` | app/utils/zod.ts:9 | reading a rendering back gives the number |
| `FormFields.NumericStringRoundTrip` | app/utils/zod.ts:9 | the rendering of every natural is accepted and parses back to it |
| `FormFields.LeadingZero` | app/utils/zod.ts:9 | a leading zero leaves the value unchanged |
| `FormFields.LeadingZerosAccepted` | app/utils/zod.ts:9 | "007" is accepted as 7 |
| `FormFields.NonDigitsRejected` | app/utils/zod.ts:9 | a string with a sign, a space or a '.' is rejected, and so is the empty string |
| `FormFields.IndexOfFrom` | app/utils/zod.ts:21 | the first occurrence of the separator at or after a position, or -1 when there is none |
| `FormFields.IndexOf` | app/utils/zod.ts:21 | -1 iff the separator does not occur; otherwise the first position where it occurs |
| `FormFields.Split` | app/utils/zod.ts:21 | `split`: at least one piece, no piece contains the separator, joining the pieces with the separator gives the input back, and every cut is at the leftmost occurrence (no occurrence starts inside a piece and runs into the separator after it) |
| `FormFields.SplitRange` | app/utils/zod.ts:19-24 | a string yields `{ start, end }` with start the first piece and end present iff the separator occurs (then the second piece); a non-string yields nothing |
| `FormFields.DateRangeString` | app/utils/zod.ts:19-24 | accepted only for a string containing the separator whose first two pieces both parse as dates, and then the range holds those two dates |
| `FormFields.SplitWithoutSeparator` | app/utils/zod.ts:21 | a string without the separator splits into itself alone |
| `FormFields.SplitAfterFirst` | app/utils/zod.ts:21 | when no separator starts inside `a`, the first piece of `a + sep + rest` is `a` and the remaining pieces are those of `rest` |
| `FormFields.SplitJoined` | app/utils/zod.ts:21-22 | under that condition, and with no separator in `b`, `a + sep + b` splits into exactly `a` and `b` |
| `FormFields.SeparatorOverlap` | app/utils/zod.ts:21 | a string `a` without the separator for which `a + sep + b` does not split back into `a` and `b` |
| `FormFields.SplitRangeJoined` | app/utils/zod.ts:21-22 | a range written `a`, separator, `b` has start `a` and end `b` |
| `FormFields.SplitRangeIgnoresRest` | app/utils/zod.ts:21 | text after a second separator does not change start or end |
| `FormFields.NoSeparatorRejected` | app/utils/zod.ts:19-24 | input without the separator has no end piece and the range is rejected |
| `FormFields.NonTextRejected` | app/utils/zod.ts:9-24 | a value that is not a string is rejected by `numericString` and by `dateRangeString` |
| `ContestServer.OpenAt` | app/models/contest.server.ts:10-13 | a row passes the `where` iff applicationStart <= now <= applicationEnd |
| `ContestServer.Insert` | app/models/contest.server.ts:9 | inserting into a newest-first list keeps it newest first and adds exactly the one row |
| `ContestServer.SortNewestFirst` | app/models/contest.server.ts:9 | `orderBy: { createdAt: "desc" }`: the result is newest first and a permutation of the input |
| `ContestServer.GetCurrentContest` | app/models/contest.server.ts:5-15 | none iff no contest's application window holds now; otherwise the id of a contest in the table whose window holds now and that has the largest `createdAt` among those |
| `ContestServer.GetContests` | app/models/contest.server.ts:17-19 | every contest, newest first, as a permutation of the table |
| `ContestServer.GetContest` | app/models/contest.server.ts:21-25 | the contest with the id if one is in the table, none iff no row has it |
| `ContestServer.HasTeamOf` | app/models/contest.server.ts:42 | a contest passes iff some team of the table belongs to it and has the advisor |
| `ContestServer.AdvisorContestRows` | app/models/contest.server.ts:41-44 | the advisor's contests in table order, each with the teams of that contest; every row has a team with the advisor |
| `ContestServer.IsCurrent` | app/models/contest.server.ts:46 | a row is current iff there is a current contest and the row's contest has its id |
| `ContestServer.AdvisorRowsUnique` | app/models/contest.server.ts:41-44 | with unique contest ids, the advisor's rows have distinct contest ids |
| `ContestServer.AtMostOneCurrent` | app/models/contest.server.ts:46 | with distinct contest ids, at most one row is current, which is how app/components/dashboard/Advisor.tsx:19 reads the first bucket |
| `ContestServer.GetAdvisorContests` | app/models/contest.server.ts:39-47 | the buckets are the advisor's rows split on "is the current contest"; every returned contest is in the table and has a team with the advisor; the first bucket is empty without a current contest and has at most one row when ids are unique |
| `ContestServer.ContestTable.CreateContest` | app/models/contest.server.ts:27-37 | appends exactly one row with a fresh id, the given application window and creation time now; other rows are unchanged |
| `TeamServer.FindTeam` | app/models/team.server.ts:5-7 | the row with the id if present, none iff no row has it |
| `TeamServer.FindTeamUnique` | app/models/team.server.ts:5-7 | with unique ids, looking up a row's id finds that row |
| `TeamServer.TeamTable.GetTeam` | app/models/team.server.ts:5-7 | `getTeam`: the team with the id if present, else null |
| `TeamServer.TeamTable.CreateTeam` | app/models/team.server.ts:9-26 | with a current contest, appends exactly one team with a fresh id, that contest's id, the given name and advisor and no report, leaving earlier teams unchanged, and `getTeam` then returns it; without one, fails with "No contest found" and leaves the table unchanged |

## Left out

- React rendering, Mantine components, the popover state and the display
  labels, titles and descriptions of checks and periods: these are user interface.
- The completion percentage `checked / length * 100` is floating point. Only the integer count is modelled.
- `teamSize` comes from a module that is not part of this model. It is a
  function parameter of `GetChecks` and `Completion`, so nothing about it is assumed.
- Date parsing and validation by the date library in `dateString` are left
  out. They are the `parseDate` parameter of `FormFields.DateRangeString`.
- `FormFields.NumericString`: JavaScript's `Number` loses precision on very
  long digit strings. The model gives the exact natural number.
- JavaScript string lengths count UTF-16 code units. The model counts
  Unicode scalar values. They agree for characters in the Basic Multilingual
  Plane; a character above U+FFFF counts twice in JavaScript and once here,
  so the team-name length check of `ApplicationChecks.GetChecks` can differ
  at its bounds for such names.
- `ContestServer.ContestTable.CreateContest`: the columns the call does not
  set come from the schema's defaults, which are not part of this model. They
  are a `defaults` parameter. `createdAt` is taken to be the insertion time.
  Ids come from a counter because the id scheme is not part of this model.
- Invite codes, contest names and the other columns no modelled code reads
  are left out of the records.
- `ContestServer.GetCurrentContest` and `ContestServer.SortNewestFirst`: when
  several open contests share the newest `createdAt`, the database picks one
  of them. The model proves only that the chosen contest is among the newest.
- Awaiting the database, connection failures and concurrent requests are left out.
  Each query reads one consistent snapshot.
- Route loaders and actions, sessions, password hashing, `getBaseUrl` (it
  reads the environment) and the type-level `Jsonify` helpers are not part of this model.
