/**
 * The phase timeline of app/components/ContestTimeline.tsx: a contest's five
 * periods in their fixed order, and the index of the one that is active now.
 */
module Timeline {
  import opened Records

  /** One period of the timeline; titles and descriptions are display text and are left out. */
  datatype Period = Period(key: string, start: Timestamp, end: Timestamp)

  /** The period keys, in timeline order. */
  const PeriodKeys: seq<string> := ["application", "letters", "design", "technical-controls", "final-race"]

  /** The five periods, each window taken from its own pair of contest columns. */
  function Periods(c: Contest): (ps: seq<Period>)
    ensures |ps| == |PeriodKeys| == 5
    ensures forall i :: 0 <= i < |ps| ==> ps[i].key == PeriodKeys[i]
    ensures ps[0].start == c.applicationStart && ps[0].end == c.applicationEnd
    ensures ps[1].start == c.letterUploadStart && ps[1].end == c.letterUploadEnd
    ensures ps[2].start == c.designReportStart && ps[2].end == c.designReportEnd
    ensures ps[3].start == c.techControlsStart && ps[3].end == c.techControlsEnd
    ensures ps[4].start == c.finalRaceStart && ps[4].end == c.finalRaceEnd
  {
    [ Period("application", c.applicationStart, c.applicationEnd),
      Period("letters", c.letterUploadStart, c.letterUploadEnd),
      Period("design", c.designReportStart, c.designReportEnd),
      Period("technical-controls", c.techControlsStart, c.techControlsEnd),
      Period("final-race", c.finalRaceStart, c.finalRaceEnd) ]
  }

  /** `now` lies in the period's window, both ends included. */
  predicate Covers(p: Period, now: Timestamp) {
    p.start <= now && p.end >= now
  }

  /** JavaScript's `s.findIndex(p)`: the first index whose item satisfies `p`, or -1. */
  function FindIndex<T>(s: seq<T>, p: T -> bool): (r: int)
    ensures -1 <= r < |s|
    ensures r >= 0 ==> p(s[r])
    ensures r >= 0 ==> forall j :: 0 <= j < r ==> !p(s[j])
    ensures r == -1 <==> forall j :: 0 <= j < |s| ==> !p(s[j])
  {
    if |s| == 0 then -1
    else if p(s[0]) then 0
    else
      var k := FindIndex(s[1..], p);
      if k < 0 then -1 else k + 1
  }

  /** `activePeriodIndex`: the first period, in timeline order, whose window holds `now`; -1 if none. */
  function ActivePeriodIndex(c: Contest, now: Timestamp): (r: int)
    ensures -1 <= r < 5
    ensures r >= 0 ==> Periods(c)[r].start <= now <= Periods(c)[r].end
    ensures r >= 0 ==> forall j :: 0 <= j < r ==> !Covers(Periods(c)[j], now)
    ensures r == -1 <==> forall j :: 0 <= j < 5 ==> !Covers(Periods(c)[j], now)
  {
    FindIndex(Periods(c), p => Covers(p, now))
  }

  /** Both window ends select their period when no earlier period holds `now`. */
  lemma BoundsInclusive(c: Contest, now: Timestamp, i: nat)
    requires i < 5
    requires Periods(c)[i].start <= Periods(c)[i].end
    requires now == Periods(c)[i].start || now == Periods(c)[i].end
    requires forall j :: 0 <= j < i ==> !Covers(Periods(c)[j], now)
    ensures ActivePeriodIndex(c, now) == i
  {
  }

  /** When two windows overlap at `now`, the earlier period in timeline order wins. */
  lemma EarlierPeriodWins(c: Contest, now: Timestamp, i: nat, j: nat)
    requires i < j < 5
    requires Covers(Periods(c)[i], now) && Covers(Periods(c)[j], now)
    ensures ActivePeriodIndex(c, now) <= i
    ensures ActivePeriodIndex(c, now) != j
  {
  }
}
