/** Aggregators of midterm.py: a player's (Gls, Sh, SoT) numbers parsed out of a slice
    of the row, and their componentwise sum over a team. */
module Aggregates {
  import opened Wrappers
  import opened Text
  import opened Fields
  import opened Tables

  /** A player's or a team's shooting numbers. */
  datatype Shooting = Shooting(goals: int, shots: int, shotsOnTarget: int)

  /** `int()` applied to row[lo], ..., row[hi - 1] in turn: their values, or `None` as
      soon as one of them raises. */
  function ParseRange(row: Row, lo: nat, hi: nat): Option<seq<int>>
    requires lo <= |row| && hi <= |row|
    decreases hi
  {
    if hi <= lo then Some([])
    else
      var init, last := ParseRange(row, lo, hi - 1), ParseInt(row[hi - 1]);
      if init.Some? && last.Some? then Some(init.value + [last.value]) else None
  }

  /** The parse succeeds exactly when every field in the range is an integer literal,
      and then yields each field's value in order. */
  lemma {:induction false} ParseRangeValues(row: Row, lo: nat, hi: nat)
    requires lo <= hi <= |row|
    ensures ParseRange(row, lo, hi).Some? <==> forall i :: lo <= i < hi ==> ParseInt(row[i]).Some?
    ensures ParseRange(row, lo, hi).Some? ==> |ParseRange(row, lo, hi).value| == hi - lo
    ensures ParseRange(row, lo, hi).Some? ==>
      forall i :: lo <= i < hi ==> ParseInt(row[i]) == Some(ParseRange(row, lo, hi).value[i - lo])
  {
    if lo < hi {
      ParseRangeValues(row, lo, hi - 1);
    }
  }

  /** The numbers the program writes with `str()` parse back to themselves. */
  lemma ParseRangeShown(row: Row, lo: nat, hi: nat, xs: seq<int>)
    requires lo <= hi <= |row| && |xs| == hi - lo
    requires forall i :: 0 <= i < |xs| ==> row[lo + i] == ShowInt(xs[i])
    ensures ParseRange(row, lo, hi) == Some(xs)
  {
    forall i | lo <= i < hi
      ensures ParseInt(row[i]) == Some(xs[i - lo])
    {
      ParseShowInt(xs[i - lo]);
    }
    ParseRangeValues(row, lo, hi);
    var r := ParseRange(row, lo, hi);
    assert r.Some?;
    assert r.value == xs;
  }

  /** get_player_shooting_numbers: `player[start:stop]` (Python clamps both bounds to the
      row and yields nothing when they cross), then each element of the slice overwritten
      with its integer value, one index at a time. */
  method GetPlayerShootingNumbers(player: Row, start: nat, stop: nat) returns (numbers: Option<seq<int>>)
    ensures numbers == ParseRange(player, Min(start, |player|), Min(stop, |player|))
  {
    var lo, hi := Min(start, |player|), Min(stop, |player|);
    var fields := if lo < hi then player[lo..hi] else [];
    var converted := new int[|fields|];
    for i := 0 to |fields|
      invariant ParseRange(player, lo, lo + i) == Some(converted[..i])
    {
      var value := ParseInt(fields[i]);
      if value.None? {
        ParseRangeValues(player, lo, hi);
        assert player[lo + i] == fields[i];
        return None;
      }
      converted[i] := value.value;
      assert converted[..i + 1] == converted[..i] + [value.value];
    }
    assert converted[..] == converted[..|fields|];
    return Some(converted[..]);
  }

  /** The unpacking `goals, shots, shots_on_target = ...`, which raises unless there are
      exactly three numbers. */
  function AsShooting(numbers: Option<seq<int>>): Option<Shooting>
  {
    if numbers.Some? && |numbers.value| == 3
    then Some(Shooting(numbers.value[0], numbers.value[1], numbers.value[2]))
    else None
  }

  /** What get_player_shooting_numbers and the unpacking give for one player. */
  function PlayerShooting(player: Row, start: nat, stop: nat): Option<Shooting>
  {
    AsShooting(ParseRange(player, Min(start, |player|), Min(stop, |player|)))
  }

  /** Componentwise sum; a failure on either side is a failure. */
  function Add(a: Option<Shooting>, b: Option<Shooting>): Option<Shooting>
  {
    if a.Some? && b.Some? then
      Some(Shooting(a.value.goals + b.value.goals, a.value.shots + b.value.shots,
                    a.value.shotsOnTarget + b.value.shotsOnTarget))
    else None
  }

  /** The sum of every player's numbers, (0, 0, 0) for no players. */
  function TeamTotals(team: Table, start: nat, stop: nat): Option<Shooting>
  {
    if |team| == 0 then Some(Shooting(0, 0, 0))
    else Add(TeamTotals(team[..|team| - 1], start, stop), PlayerShooting(team[|team| - 1], start, stop))
  }

  lemma TeamTotalsSnoc(team: Table, x: Row, start: nat, stop: nat)
    ensures TeamTotals(team + [x], start, stop) == Add(TeamTotals(team, start, stop), PlayerShooting(x, start, stop))
  {
    assert (team + [x])[..|team|] == team;
  }

  /** The totals fail exactly when some player's numbers do. */
  lemma {:induction false} TeamTotalsFailIff(team: Table, start: nat, stop: nat)
    ensures TeamTotals(team, start, stop).None? <==>
      exists i :: 0 <= i < |team| && PlayerShooting(team[i], start, stop).None?
  {
    if |team| > 0 {
      var init := team[..|team| - 1];
      TeamTotalsFailIff(init, start, stop);
      if exists i :: 0 <= i < |init| && PlayerShooting(init[i], start, stop).None? {
        var i :| 0 <= i < |init| && PlayerShooting(init[i], start, stop).None?;
        assert team[i] == init[i];
      }
      if exists i :: 0 <= i < |team| && PlayerShooting(team[i], start, stop).None? {
        var i :| 0 <= i < |team| && PlayerShooting(team[i], start, stop).None?;
        if i < |init| {
          assert init[i] == team[i];
        }
      }
    }
  }

  /** get_team_shooting_numbers: three running counters over the team. */
  method GetTeamShootingNumbers(team: Table, start: nat, stop: nat) returns (totals: Option<Shooting>)
    ensures totals == TeamTotals(team, start, stop)
  {
    var goalsCount, shotCount, shotsOnTargetCount := 0, 0, 0;
    for i := 0 to |team|
      invariant TeamTotals(team[..i], start, stop) == Some(Shooting(goalsCount, shotCount, shotsOnTargetCount))
    {
      var numbers := GetPlayerShootingNumbers(team[i], start, stop);
      if numbers.None? || |numbers.value| != 3 {
        TeamTotalsFailIff(team, start, stop);
        return None;
      }
      var goals, shots, shotsOnTarget := numbers.value[0], numbers.value[1], numbers.value[2];
      goalsCount := goalsCount + goals;
      shotCount := shotCount + shots;
      shotsOnTargetCount := shotsOnTargetCount + shotsOnTarget;
      TeamTotalsSnoc(team[..i], team[i], start, stop);
      assert team[..i + 1] == team[..i] + [team[i]];
    }
    assert team[..|team|] == team;
    return Some(Shooting(goalsCount, shotCount, shotsOnTargetCount));
  }

  /** Taking out any one player: the total is the rest's total plus that player's. */
  lemma {:induction false} TeamTotalsRemove(team: Table, k: nat, start: nat, stop: nat)
    requires k < |team|
    ensures TeamTotals(team, start, stop) ==
      Add(TeamTotals(team[..k] + team[k + 1..], start, stop), PlayerShooting(team[k], start, stop))
  {
    var n := |team|;
    if k < n - 1 {
      var init := team[..n - 1];
      TeamTotalsRemove(init, k, start, stop);
      var rest := init[..k] + init[k + 1..];
      assert team[..k] + team[k + 1..] == rest + [team[n - 1]];
      assert (rest + [team[n - 1]])[..|rest|] == rest;
    } else {
      assert team[..k] + team[k + 1..] == team[..n - 1];
    }
  }

  /** get_team_shooting_numbers gives the same totals for any order of the team. */
  lemma {:induction false} TeamTotalsPermutation(a: Table, b: Table, start: nat, stop: nat)
    requires multiset(a) == multiset(b)
    ensures TeamTotals(a, start, stop) == TeamTotals(b, start, stop)
  {
    if |a| > 0 {
      var n := |a|;
      var last := a[n - 1];
      assert a == a[..n - 1] + [last];
      assert last in multiset(b);
      var k :| 0 <= k < |b| && b[k] == last;
      assert b == b[..k] + [b[k]] + b[k + 1..];
      var rest := b[..k] + b[k + 1..];
      assert multiset(b) == multiset(b[..k]) + multiset{last} + multiset(b[k + 1..]);
      assert multiset(rest) == multiset(b[..k]) + multiset(b[k + 1..]);
      assert multiset(a) == multiset(a[..n - 1]) + multiset{last};
      assert multiset(a[..n - 1]) == multiset(a) - multiset{last};
      assert multiset(rest) == multiset(b) - multiset{last};
      TeamTotalsPermutation(a[..n - 1], rest, start, stop);
      TeamTotalsRemove(b, k, start, stop);
    } else {
      assert b == [];
    }
  }

  /** The first player of the data file: Gls 1, Sh 10, SoT 4. */
  lemma PlayerShootingExample(player: Row)
    requires |player| == 11 && player[8..] == ["1", "10", "4"]
    ensures PlayerShooting(player, 8, 11) == Some(Shooting(1, 10, 4))
  {
    ParseDigit('1');
    ParseDigit('4');
    assert ParseInt("10") == Some(10) by {
      assert AllDigits("10");
      assert "10"[..1] == "1";
      assert DigitsValue("10") == 10;
    }
    assert player[8] == "1" && player[9] == "10" && player[10] == "4";
    assert ParseRange(player, 8, 9) == Some([1]) by {
      assert [] + [1] == [1];
    }
    assert ParseRange(player, 8, 10) == Some([1, 10]) by {
      assert [1] + [10] == [1, 10];
    }
    assert ParseRange(player, 8, 11) == Some([1, 10, 4]) by {
      assert [1, 10] + [4] == [1, 10, 4];
    }
  }
}
