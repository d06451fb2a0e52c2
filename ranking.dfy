/** The team table built at the end of midterm.py's `main`: one row of shooting metrics
    per country, the four-band efficiency rating appended to each row, and the final
    ordering by on-target conversion rate (descending), then country name (ascending).
    Rates are whole numbers of thousandths, the value `round(x, 3)` denotes. */
module Ranking {
  import opened Wrappers
  import opened Text
  import opened Fields
  import opened Aggregates

  /** Every rate in the team table carries three decimal places. */
  const RatePrecision: nat := 3

  /** `[country, goals, shots, shots_on_target, shots_conv_rate,
      shots_on_target_conv_rate]`. */
  datatype TeamMetrics = TeamMetrics(
    country: String,
    goals: int,
    shots: int,
    shotsOnTarget: int,
    shotsConvRate: int,
    onTargetConvRate: int)

  /** The row built for one country from its team's summed shooting numbers. */
  function TeamMetricsOf(country: String, totals: Shooting): (m: TeamMetrics)
    ensures m.country == country && m.goals == totals.goals
    ensures m.shots == totals.shots && m.shotsOnTarget == totals.shotsOnTarget
    ensures totals.shots > 0 ==>
      IsRoundedQuotient(m.shotsConvRate, totals.goals * Pow10(RatePrecision), totals.shots)
    ensures totals.shotsOnTarget > 0 ==>
      IsRoundedQuotient(m.onTargetConvRate, totals.goals * Pow10(RatePrecision), totals.shotsOnTarget)
    ensures totals.shots == 0 ==> m.shotsConvRate == 0
    ensures totals.shotsOnTarget == 0 ==> m.onTargetConvRate == 0
  {
    TeamMetrics(country, totals.goals, totals.shots, totals.shotsOnTarget,
                ConversionRate(totals.goals, totals.shots, RatePrecision),
                ConversionRate(totals.goals, totals.shotsOnTarget, RatePrecision))
  }

  /** A team that scored no more goals than it had shots on target has both rates
      between 0 and 1 (0 and 1000 thousandths). */
  lemma TeamMetricsRatesBounded(country: String, totals: Shooting)
    requires 0 <= totals.goals <= totals.shotsOnTarget <= totals.shots
    ensures 0 <= TeamMetricsOf(country, totals).onTargetConvRate <= 1000
    ensures 0 <= TeamMetricsOf(country, totals).shotsConvRate <= 1000
  {
    ConversionRateBounds(totals.goals, totals.shotsOnTarget, RatePrecision);
    ConversionRateBounds(totals.goals, totals.shots, RatePrecision);
  }

  // ---------------------------------------------------------------------------
  // The efficiency rating
  // ---------------------------------------------------------------------------

  datatype Tier = TopTier | UpperMiddleTier | LowerMiddleTier | BottomTier

  /** The text written into the `efficiency_rating` column. */
  function Label(t: Tier): String
  {
    match t
    case TopTier => "Top Tier"
    case UpperMiddleTier => "Upper Middle Tier"
    case LowerMiddleTier => "Lower Middle Tier"
    case BottomTier => "Bottom Tier"
  }

  /** Position on the ladder, best first. */
  function Band(t: Tier): nat
  {
    match t
    case TopTier => 0
    case UpperMiddleTier => 1
    case LowerMiddleTier => 2
    case BottomTier => 3
  }

  /** The if/elif ladder on the on-target rate: the first threshold the rate reaches,
      0.4, 0.3 or 0.2, each bound inclusive. */
  function TierFor(rate: int): (t: Tier)
    ensures t == TopTier <==> rate >= 400
    ensures t == UpperMiddleTier <==> 300 <= rate < 400
    ensures t == LowerMiddleTier <==> 200 <= rate < 300
    ensures t == BottomTier <==> rate < 200
  {
    if rate >= 400 then TopTier
    else if rate >= 300 then UpperMiddleTier
    else if rate >= 200 then LowerMiddleTier
    else BottomTier
  }

  /** Different tiers have different labels, so the column determines the tier. */
  lemma LabelInjective(a: Tier, b: Tier)
    requires Label(a) == Label(b)
    ensures a == b
  {
    assert Label(a)[0] == Label(b)[0];
  }

  /** A higher rate never earns a worse tier. */
  lemma TierMonotone(lower: int, higher: int)
    requires lower <= higher
    ensures Band(TierFor(higher)) <= Band(TierFor(lower))
  {
  }

  lemma TierBoundaries()
    ensures TierFor(400) == TopTier && TierFor(399) == UpperMiddleTier
    ensures TierFor(300) == UpperMiddleTier && TierFor(299) == LowerMiddleTier
    ensures TierFor(200) == LowerMiddleTier && TierFor(199) == BottomTier
    ensures TierFor(1000) == TopTier && TierFor(0) == BottomTier
  {
  }

  /** A team with 1 goal from 10 shots, 4 of them on target: a rate of 0.1 on shots and
      0.25 on shots on target, which is the lower middle tier. */
  lemma TierExample()
    ensures TeamMetricsOf("China PR", Shooting(1, 10, 4)).shotsConvRate == 100
    ensures TeamMetricsOf("China PR", Shooting(1, 10, 4)).onTargetConvRate == 250
    ensures TierFor(TeamMetricsOf("China PR", Shooting(1, 10, 4)).onTargetConvRate) == LowerMiddleTier
  {
    assert Pow10(RatePrecision) == 1000;
    var m := TeamMetricsOf("China PR", Shooting(1, 10, 4));
    RoundedQuotientUnique(m.shotsConvRate, 100, 1000, 10);
    RoundedQuotientUnique(m.onTargetConvRate, 250, 1000, 4);
  }

  /** A row of the team table once the rating has (or has not yet) been appended. */
  datatype TeamRow = TeamRow(metrics: TeamMetrics, rating: Option<Tier>)

  predicate RatedByLadder(row: TeamRow)
  {
    row.rating == Some(TierFor(row.metrics.onTargetConvRate))
  }

  /** The loop that appends the rating to every team row in place. Every row starts
      unrated (six fields), so the append is the row's only rating. */
  method RateTeams(teams: array<TeamRow>)
    requires forall k :: 0 <= k < teams.Length ==> teams[k].rating.None?
    modifies teams
    ensures forall k :: 0 <= k < teams.Length ==>
      teams[k] == old(teams[k]).(rating := Some(TierFor(old(teams[k]).metrics.onTargetConvRate)))
    ensures forall k :: 0 <= k < teams.Length ==> RatedByLadder(teams[k])
  {
    for i := 0 to teams.Length
      invariant forall k :: 0 <= k < i ==>
        teams[k] == old(teams[k]).(rating := Some(TierFor(old(teams[k]).metrics.onTargetConvRate)))
      invariant forall k :: i <= k < teams.Length ==> teams[k] == old(teams[k])
    {
      var rate := teams[i].metrics.onTargetConvRate;
      var rating: Tier;
      if rate >= 400 {
        rating := TopTier;
      } else if rate >= 300 {
        rating := UpperMiddleTier;
      } else if rate >= 200 {
        rating := LowerMiddleTier;
      } else {
        rating := BottomTier;
      }
      teams[i] := teams[i].(rating := Some(rating));
    }
  }

  // ---------------------------------------------------------------------------
  // The final ordering: key (-on-target rate, country)
  // ---------------------------------------------------------------------------

  /** `a` sorts strictly before `b` under the key: a higher on-target rate, or the same
      rate and a country name that is smaller in code-point order. */
  predicate RanksBefore(a: TeamRow, b: TeamRow)
  {
    a.metrics.onTargetConvRate > b.metrics.onTargetConvRate ||
    (a.metrics.onTargetConvRate == b.metrics.onTargetConvRate &&
     StrLess(a.metrics.country, b.metrics.country))
  }

  /** Two rows neither of which ranks before the other have the same key. */
  lemma RanksBeforeTotal(a: TeamRow, b: TeamRow)
    ensures RanksBefore(a, b) || RanksBefore(b, a) ||
      (a.metrics.onTargetConvRate == b.metrics.onTargetConvRate && a.metrics.country == b.metrics.country)
  {
    StrLessTotal(a.metrics.country, b.metrics.country);
  }

  lemma RanksBeforeAsymmetric(a: TeamRow, b: TeamRow)
    requires RanksBefore(a, b)
    ensures !RanksBefore(b, a)
  {
    if a.metrics.onTargetConvRate == b.metrics.onTargetConvRate {
      StrLessAsymmetric(a.metrics.country, b.metrics.country);
    }
  }

  lemma RanksBeforeTransitive(a: TeamRow, b: TeamRow, c: TeamRow)
    requires RanksBefore(a, b) && RanksBefore(b, c)
    ensures RanksBefore(a, c)
  {
    if a.metrics.onTargetConvRate == b.metrics.onTargetConvRate == c.metrics.onTargetConvRate {
      StrLessTransitive(a.metrics.country, b.metrics.country, c.metrics.country);
    }
  }

  /** "Does not rank after" is transitive as well. */
  lemma NotAfterTransitive(a: TeamRow, b: TeamRow, c: TeamRow)
    requires !RanksBefore(b, a) && !RanksBefore(c, b)
    ensures !RanksBefore(c, a)
  {
    if RanksBefore(c, a) {
      RanksBeforeTotal(a, b);
      if RanksBefore(a, b) {
        RanksBeforeTransitive(c, a, b);
      }
    }
  }

  /** No row ranks before an earlier one. */
  predicate Ranked(s: seq<TeamRow>)
  {
    forall i, j :: 0 <= i < j < |s| ==> !RanksBefore(s[j], s[i])
  }

  /** Puts `x` in front of the first row that it does not rank after; equal keys keep
      `x` first, which is what makes the sort stable. */
  function Insert(x: TeamRow, s: seq<TeamRow>): seq<TeamRow>
  {
    if |s| == 0 then [x]
    else if RanksBefore(s[0], x) then [s[0]] + Insert(x, s[1..])
    else [x] + s
  }

  /** `sorted(teams, key=lambda x: (-float(x[-2]), x[0]))`, a stable sort. Its only call
      (midterm.py:469) sorts rated rows, whose second-to-last field `x[-2]` is the
      on-target rate, so the key is that rate and the country. */
  function SortTeams(s: seq<TeamRow>): seq<TeamRow>
  {
    if |s| == 0 then [] else Insert(s[0], SortTeams(s[1..]))
  }

  lemma {:induction false} InsertPermutation(x: TeamRow, s: seq<TeamRow>)
    ensures multiset(Insert(x, s)) == multiset(s) + multiset{x}
  {
    if |s| > 0 {
      assert s == [s[0]] + s[1..];
      if RanksBefore(s[0], x) {
        InsertPermutation(x, s[1..]);
      }
    }
  }

  lemma {:induction false} InsertRanked(x: TeamRow, s: seq<TeamRow>)
    requires Ranked(s)
    ensures Ranked(Insert(x, s))
  {
    if |s| > 0 && RanksBefore(s[0], x) {
      var rest := s[1..];
      assert Ranked(rest);
      InsertRanked(x, rest);
      var r := Insert(x, s);
      var tail := Insert(x, rest);
      InsertPermutation(x, rest);
      forall j | 1 <= j < |r|
        ensures !RanksBefore(r[j], r[0])
      {
        assert r[j] == tail[j - 1];
        assert tail[j - 1] in multiset(rest) + multiset{x};
        if tail[j - 1] == x {
          RanksBeforeAsymmetric(s[0], x);
        } else {
          assert tail[j - 1] in rest;
          var k :| 0 <= k < |rest| && rest[k] == tail[j - 1];
          assert s[k + 1] == rest[k];
        }
      }
    } else if |s| > 0 {
      var r := Insert(x, s);
      forall i, j | 0 <= i < j < |r|
        ensures !RanksBefore(r[j], r[i])
      {
        if i == 0 && j > 1 {
          NotAfterTransitive(x, s[0], s[j - 1]);
        }
      }
    }
  }

  /** The result of the sort is a permutation of the teams... */
  lemma {:induction false} SortTeamsPermutation(s: seq<TeamRow>)
    ensures multiset(SortTeams(s)) == multiset(s)
  {
    if |s| > 0 {
      SortTeamsPermutation(s[1..]);
      InsertPermutation(s[0], SortTeams(s[1..]));
      assert s == [s[0]] + s[1..];
    }
  }

  /** ...in descending on-target rate, and ascending country among equal rates. */
  lemma {:induction false} SortTeamsRanked(s: seq<TeamRow>)
    ensures Ranked(SortTeams(s))
    ensures forall i, j :: 0 <= i < j < |SortTeams(s)| ==>
      SortTeams(s)[i].metrics.onTargetConvRate >= SortTeams(s)[j].metrics.onTargetConvRate
  {
    if |s| > 0 {
      SortTeamsRanked(s[1..]);
      InsertRanked(s[0], SortTeams(s[1..]));
    }
  }

  /** Sorting rows that are already in order changes nothing, so sorting twice is the
      same as sorting once. */
  lemma {:induction false} SortTeamsRankedUnchanged(s: seq<TeamRow>)
    requires Ranked(s)
    ensures SortTeams(s) == s
  {
    if |s| > 0 {
      assert Ranked(s[1..]);
      SortTeamsRankedUnchanged(s[1..]);
      if |s| > 1 {
        assert !RanksBefore(s[1], s[0]);
      }
    }
  }

  lemma SortTeamsIdempotent(s: seq<TeamRow>)
    ensures SortTeams(SortTeams(s)) == SortTeams(s)
  {
    SortTeamsRanked(s);
    SortTeamsRankedUnchanged(SortTeams(s));
  }

  /** Once every row carries its ladder rating, the sorted table lists the tiers in
      order: every top-tier team, then the upper middle, lower middle and bottom ones. */
  lemma SortedTiersInOrder(s: seq<TeamRow>)
    requires forall k :: 0 <= k < |s| ==> RatedByLadder(s[k])
    ensures forall k :: 0 <= k < |SortTeams(s)| ==> RatedByLadder(SortTeams(s)[k])
    ensures forall i, j :: 0 <= i < j < |SortTeams(s)| ==>
      SortTeams(s)[i].rating.Some? && SortTeams(s)[j].rating.Some? &&
      Band(SortTeams(s)[i].rating.value) <= Band(SortTeams(s)[j].rating.value)
  {
    var r := SortTeams(s);
    SortTeamsPermutation(s);
    SortTeamsRanked(s);
    forall k | 0 <= k < |r|
      ensures RatedByLadder(r[k])
    {
      assert r[k] in multiset(s);
    }
    forall i, j | 0 <= i < j < |r|
      ensures Band(r[i].rating.value) <= Band(r[j].rating.value)
    {
      TierMonotone(r[j].metrics.onTargetConvRate, r[i].metrics.onTargetConvRate);
    }
  }

  /** The sort key of a row. */
  function Key(row: TeamRow): (int, String)
  {
    (row.metrics.onTargetConvRate, row.metrics.country)
  }

  /** The rows whose key is `k`, in order. */
  function WithKey(s: seq<TeamRow>, k: (int, String)): seq<TeamRow>
  {
    if |s| == 0 then [] else (if Key(s[0]) == k then [s[0]] else []) + WithKey(s[1..], k)
  }

  lemma {:induction false} InsertWithKey(x: TeamRow, s: seq<TeamRow>, k: (int, String))
    ensures WithKey(Insert(x, s), k) == (if Key(x) == k then [x] else []) + WithKey(s, k)
  {
    var r := Insert(x, s);
    if |s| == 0 {
      assert r[1..] == [];
    } else if RanksBefore(s[0], x) {
      InsertWithKey(x, s[1..], k);
      assert r[1..] == Insert(x, s[1..]);
      if Key(s[0]) == Key(x) {
        StrLessIrreflexive(x.metrics.country);
      }
    } else {
      assert r[1..] == s;
    }
  }

  /** The sort is stable: rows with equal keys keep their relative order. */
  lemma {:induction false} SortTeamsStable(s: seq<TeamRow>, k: (int, String))
    ensures WithKey(SortTeams(s), k) == WithKey(s, k)
  {
    if |s| > 0 {
      SortTeamsStable(s[1..], k);
      InsertWithKey(s[0], SortTeams(s[1..]), k);
    }
  }
}
