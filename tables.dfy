/** Filters and groupers of midterm.py over a table of rows (a row is a list of string
    fields): multi-position players, the members of one team, the distinct team names
    and the top scorers. Each loop of the source is a method proved against a
    specification function. */
module Tables {
  import opened Wrappers
  import opened Text

  type Row = seq<String>
  type Table = seq<Row>

  /** Every row has a field at `idx` (otherwise the source raises IndexError). */
  predicate HasField(players: Table, idx: nat)
  {
    forall row :: row in players ==> idx < |row|
  }

  // ---------------------------------------------------------------------------
  // Order-preserving filtering
  // ---------------------------------------------------------------------------

  /** The rows of `s` that satisfy `keep`, in their original order. */
  function Filter(s: Table, keep: Row -> bool): Table
  {
    if |s| == 0 then []
    else
      var last := s[|s| - 1];
      Filter(s[..|s| - 1], keep) + (if keep(last) then [last] else [])
  }

  lemma FilterSnoc(s: Table, x: Row, keep: Row -> bool)
    ensures Filter(s + [x], keep) == Filter(s, keep) + (if keep(x) then [x] else [])
  {
    assert (s + [x])[..|s|] == s;
  }

  /** Every row that passes the test is kept as often as it occurs, every other row is
      dropped. */
  lemma {:induction false} FilterMultiplicity(s: Table, keep: Row -> bool)
    ensures forall row :: multiset(Filter(s, keep))[row] == if keep(row) then multiset(s)[row] else 0
  {
    if |s| > 0 {
      var init, last := s[..|s| - 1], s[|s| - 1];
      assert s == init + [last];
      FilterMultiplicity(init, keep);
    }
  }

  lemma FilterMembers(s: Table, keep: Row -> bool)
    ensures forall row :: row in Filter(s, keep) <==> row in s && keep(row)
  {
    FilterMultiplicity(s, keep);
    forall row
      ensures row in Filter(s, keep) <==> row in s && keep(row)
    {
      assert row in Filter(s, keep) <==> multiset(Filter(s, keep))[row] > 0;
      assert row in s <==> multiset(s)[row] > 0;
    }
  }

  /** Filtering distributes over concatenation: the kept rows of a prefix come before
      the kept rows of what follows it, which is what "order-preserving" means. */
  lemma {:induction false} FilterConcat(a: Table, b: Table, keep: Row -> bool)
    ensures Filter(a + b, keep) == Filter(a, keep) + Filter(b, keep)
  {
    if |b| == 0 {
      assert a + b == a;
    } else {
      var init, last := b[..|b| - 1], b[|b| - 1];
      assert a + b == (a + init) + [last];
      assert b == init + [last];
      FilterConcat(a, init, keep);
      FilterSnoc(a + init, last, keep);
      FilterSnoc(init, last, keep);
    }
  }

  lemma {:induction false} FilterNone(s: Table, keep: Row -> bool)
    requires forall row :: row in s ==> !keep(row)
    ensures Filter(s, keep) == []
  {
    if |s| > 0 {
      var init := s[..|s| - 1];
      assert forall row :: row in init ==> row in s;
      FilterNone(init, keep);
    }
  }

  /** Two tests that agree on every row of `s` select the same rows. */
  lemma {:induction false} FilterAgree(s: Table, p: Row -> bool, q: Row -> bool)
    requires forall row :: row in s ==> p(row) == q(row)
    ensures Filter(s, p) == Filter(s, q)
  {
    if |s| > 0 {
      var init := s[..|s| - 1];
      assert forall row :: row in init ==> row in s;
      FilterAgree(init, p, q);
    }
  }

  // ---------------------------------------------------------------------------
  // get_multi_position_players
  // ---------------------------------------------------------------------------

  /** The test of get_multi_position_players: the "Pos" field splits on "|" into more
      than one position. */
  function MultiPosition(posIdx: nat): Row -> bool
  {
    row => posIdx < |row| && |Split(row[posIdx], '|')| > 1
  }

  method GetMultiPositionPlayers(players: Table, posIdx: nat) returns (multi: Table)
    requires HasField(players, posIdx)
    ensures multi == Filter(players, MultiPosition(posIdx))
    ensures forall row :: row in multi <==> row in players && '|' in row[posIdx]
  {
    multi := [];
    for i := 0 to |players|
      invariant multi == Filter(players[..i], MultiPosition(posIdx))
    {
      var player := players[i];
      var positions := Split(player[posIdx], '|');
      if |positions| > 1 {
        multi := multi + [player];
      }
      FilterSnoc(players[..i], player, MultiPosition(posIdx));
      assert players[..i + 1] == players[..i] + [player];
    }
    assert players[..|players|] == players;
    FilterMembers(players, MultiPosition(posIdx));
    forall row | row in players
      ensures MultiPosition(posIdx)(row) <==> '|' in row[posIdx]
    {
      SplitManyIff(row[posIdx], '|');
    }
  }

  // ---------------------------------------------------------------------------
  // get_team
  // ---------------------------------------------------------------------------

  /** The test of get_team: the "Squad" field equals `squad` ignoring case. */
  function SameTeam(squadIdx: nat, squad: String): Row -> bool
  {
    row => squadIdx < |row| && Lower(row[squadIdx]) == Lower(squad)
  }

  method GetTeam(players: Table, squadIdx: nat, squad: String) returns (team: Table)
    requires HasField(players, squadIdx)
    ensures team == Filter(players, SameTeam(squadIdx, squad))
    ensures forall row :: row in team <==> row in players && Lower(row[squadIdx]) == Lower(squad)
  {
    team := [];
    for i := 0 to |players|
      invariant team == Filter(players[..i], SameTeam(squadIdx, squad))
    {
      var player := players[i];
      if Lower(player[squadIdx]) == Lower(squad) {
        team := team + [player];
      }
      FilterSnoc(players[..i], player, SameTeam(squadIdx, squad));
      assert players[..i + 1] == players[..i] + [player];
    }
    assert players[..|players|] == players;
    FilterMembers(players, SameTeam(squadIdx, squad));
  }

  /** The team does not depend on how the requested name is capitalised. */
  lemma TeamIgnoresCase(players: Table, squadIdx: nat, a: String, b: String)
    requires Lower(a) == Lower(b)
    ensures Filter(players, SameTeam(squadIdx, a)) == Filter(players, SameTeam(squadIdx, b))
  {
    FilterAgree(players, SameTeam(squadIdx, a), SameTeam(squadIdx, b));
  }

  // ---------------------------------------------------------------------------
  // get_team_names
  // ---------------------------------------------------------------------------

  /** The field at `idx` of every row, in row order. */
  function Column(players: Table, idx: nat): (col: seq<String>)
    requires HasField(players, idx)
    ensures |col| == |players|
    ensures forall i :: 0 <= i < |players| ==> col[i] == players[i][idx]
  {
    seq(|players|, i requires 0 <= i < |players| => players[i][idx])
  }

  /** The values of `s` with later repetitions dropped. */
  function Distinct(s: seq<String>): seq<String>
  {
    if |s| == 0 then []
    else
      var d, x := Distinct(s[..|s| - 1]), s[|s| - 1];
      if x in d then d else d + [x]
  }

  /** Distinct keeps every value of `s`, adds none, and lists none twice. */
  lemma {:induction false} DistinctMembers(s: seq<String>)
    ensures forall x :: x in Distinct(s) <==> x in s
    ensures forall i, j :: 0 <= i < j < |Distinct(s)| ==> Distinct(s)[i] != Distinct(s)[j]
  {
    if |s| > 0 {
      var init, x := s[..|s| - 1], s[|s| - 1];
      DistinctMembers(init);
      assert s == init + [x];
      assert forall y :: y in s <==> y in init || y == x;
    }
  }

  /** Position of the first occurrence of `x` in `s`. */
  function FirstIndex(s: seq<String>, x: String): (k: nat)
    requires x in s
    ensures k < |s| && s[k] == x && x !in s[..k]
  {
    if s[0] == x then 0 else 1 + FirstIndex(s[1..], x)
  }

  lemma {:induction false} FirstIndexUnique(s: seq<String>, x: String, k: nat)
    requires k < |s| && s[k] == x && x !in s[..k]
    ensures FirstIndex(s, x) == k
  {
    assert k > 0 ==> s[..k][0] == s[0];
    if s[0] != x {
      assert s[1..][..k - 1] == s[..k][1..];
      FirstIndexUnique(s[1..], x, k - 1);
    }
  }

  lemma FirstIndexOfExtension(s: seq<String>, x: String, y: String)
    requires x in s
    ensures FirstIndex(s + [y], x) == FirstIndex(s, x)
  {
    var k := FirstIndex(s, x);
    assert (s + [y])[..k] == s[..k];
    FirstIndexUnique(s + [y], x, k);
  }

  /** Distinct lists the values in the order of their first occurrence. */
  lemma {:induction false} DistinctFirstOccurrenceOrder(s: seq<String>)
    ensures forall x :: x in Distinct(s) ==> x in s
    ensures forall i, j :: 0 <= i < j < |Distinct(s)| ==>
      FirstIndex(s, Distinct(s)[i]) < FirstIndex(s, Distinct(s)[j])
  {
    if |s| > 0 {
      var init, x := s[..|s| - 1], s[|s| - 1];
      var d := Distinct(init);
      DistinctFirstOccurrenceOrder(init);
      DistinctMembers(init);
      DistinctMembers(s);
      assert s == init + [x];
      forall y | y in init
        ensures FirstIndex(s, y) == FirstIndex(init, y)
      {
        FirstIndexOfExtension(init, y, x);
      }
    }
  }

  lemma DistinctSnoc(s: seq<String>, x: String)
    ensures Distinct(s + [x]) == if x in Distinct(s) then Distinct(s) else Distinct(s) + [x]
  {
    assert (s + [x])[..|s|] == s;
  }

  lemma DistinctExample()
    ensures Distinct(["A", "B", "A", "C", "B"]) == ["A", "B", "C"]
  {
    var a, b, c: String := "A", "B", "C";
    assert a != b && a != c && b != c by {
      assert a[0] != b[0] && a[0] != c[0] && b[0] != c[0];
    }
    assert Distinct([a]) == [a] by {
      DistinctSnoc([], a);
      assert [] + [a] == [a];
    }
    assert Distinct([a, b]) == [a, b] by {
      DistinctSnoc([a], b);
      assert [a] + [b] == [a, b];
    }
    assert Distinct([a, b, a]) == [a, b] by {
      DistinctSnoc([a, b], a);
      assert [a, b] + [a] == [a, b, a];
    }
    assert Distinct([a, b, a, c]) == [a, b, c] by {
      DistinctSnoc([a, b, a], c);
      assert [a, b, a] + [c] == [a, b, a, c];
      assert c !in [a, b];
    }
    assert Distinct([a, b, a, c, b]) == [a, b, c] by {
      DistinctSnoc([a, b, a, c], b);
      assert [a, b, a, c] + [b] == [a, b, a, c, b];
    }
  }

  method GetTeamNames(players: Table, squadIdx: nat) returns (names: seq<String>)
    requires HasField(players, squadIdx)
    ensures names == Distinct(Column(players, squadIdx))
  {
    ghost var col := Column(players, squadIdx);
    names := [];
    for i := 0 to |players|
      invariant names == Distinct(col[..i])
    {
      if players[i][squadIdx] !in names {
        names := names + [players[i][squadIdx]];
      }
      assert col[..i + 1][..i] == col[..i];
    }
    assert col[..|players|] == col;
  }

  /** Each listed name selects a non-empty team, and each player is in the team of
      the name listed for it. */
  lemma TeamNamesCoverPlayers(players: Table, squadIdx: nat)
    requires HasField(players, squadIdx)
    ensures forall name :: name in Distinct(Column(players, squadIdx)) ==>
      Filter(players, SameTeam(squadIdx, name)) != []
    ensures forall row :: row in players ==>
      row[squadIdx] in Distinct(Column(players, squadIdx)) &&
      row in Filter(players, SameTeam(squadIdx, row[squadIdx]))
  {
    var col := Column(players, squadIdx);
    DistinctMembers(col);
    forall name | name in Distinct(col)
      ensures Filter(players, SameTeam(squadIdx, name)) != []
    {
      var i :| 0 <= i < |col| && col[i] == name;
      FilterMembers(players, SameTeam(squadIdx, name));
      assert players[i] in Filter(players, SameTeam(squadIdx, name));
    }
    forall row | row in players
      ensures row[squadIdx] in Distinct(col)
      ensures row in Filter(players, SameTeam(squadIdx, row[squadIdx]))
    {
      FilterMembers(players, SameTeam(squadIdx, row[squadIdx]));
      var i :| 0 <= i < |players| && players[i] == row;
      assert col[i] == row[squadIdx];
    }
  }

  // ---------------------------------------------------------------------------
  // get_top_scorer
  // ---------------------------------------------------------------------------

  /** The goal count of a row; a "Gls" field that does not parse counts as 0 here
      (GetTopScorer reports such a table as a failure before this matters). */
  function Goals(row: Row, glsIdx: nat): int
    requires glsIdx < |row|
  {
    match ParseInt(row[glsIdx])
    case Some(g) => g
    case None => 0
  }

  /** The largest goal count in the table, and 0 when nobody has a positive one. */
  function MostGoals(players: Table, glsIdx: nat): int
    requires HasField(players, glsIdx)
  {
    if |players| == 0 then 0
    else
      var init, last := players[..|players| - 1], players[|players| - 1];
      assert forall row :: row in init ==> row in players;
      var m := MostGoals(init, glsIdx);
      var g := Goals(last, glsIdx);
      if g > m then g else m
  }

  /** MostGoals is an upper bound of every goal count, and a positive one is attained. */
  lemma {:induction false} MostGoalsIsMaximum(players: Table, glsIdx: nat)
    requires HasField(players, glsIdx)
    ensures MostGoals(players, glsIdx) >= 0
    ensures forall row :: row in players ==> Goals(row, glsIdx) <= MostGoals(players, glsIdx)
    ensures MostGoals(players, glsIdx) > 0 ==>
      exists row :: row in players && Goals(row, glsIdx) == MostGoals(players, glsIdx)
  {
    if |players| > 0 {
      var init, last := players[..|players| - 1], players[|players| - 1];
      assert players == init + [last];
      assert forall row :: row in init ==> row in players;
      MostGoalsIsMaximum(init, glsIdx);
    }
  }

  lemma MostGoalsSnoc(players: Table, x: Row, glsIdx: nat)
    requires HasField(players + [x], glsIdx)
    ensures HasField(players, glsIdx)
    ensures MostGoals(players + [x], glsIdx) ==
      if Goals(x, glsIdx) > MostGoals(players, glsIdx) then Goals(x, glsIdx) else MostGoals(players, glsIdx)
  {
    assert forall row :: row in players ==> row in players + [x];
    assert (players + [x])[..|players|] == players;
  }

  /** The test of a top scorer: a positive goal count equal to `most`. */
  function ScoredExactly(glsIdx: nat, most: int): Row -> bool
  {
    row => glsIdx < |row| && most > 0 && Goals(row, glsIdx) == most
  }

  /** All rows with the most goals, in input order, when that is positive. */
  function TopScorers(players: Table, glsIdx: nat): Table
    requires HasField(players, glsIdx)
  {
    Filter(players, ScoredExactly(glsIdx, MostGoals(players, glsIdx)))
  }

  /** get_top_scorer: `None` when some "Gls" field is not an integer (ValueError). */
  method GetTopScorer(players: Table, glsIdx: nat) returns (top: Option<Table>)
    requires HasField(players, glsIdx)
    ensures top.None? <==> exists row :: row in players && ParseInt(row[glsIdx]).None?
    ensures top.Some? ==> top.value == TopScorers(players, glsIdx)
  {
    var topScorers: Table := [];
    var highScore := 0;
    for i := 0 to |players|
      invariant forall row :: row in players[..i] ==> ParseInt(row[glsIdx]).Some?
      invariant highScore == MostGoals(players[..i], glsIdx)
      invariant topScorers == Filter(players[..i], ScoredExactly(glsIdx, highScore))
    {
      var player := players[i];
      assert players[..i + 1] == players[..i] + [player];
      var parsed := ParseInt(player[glsIdx]);
      if parsed.None? {
        assert player in players;
        return None;
      }
      var goals := parsed.value;
      MostGoalsSnoc(players[..i], player, glsIdx);
      MostGoalsIsMaximum(players[..i], glsIdx);
      if goals > highScore && goals > 0 {
        FilterNone(players[..i], ScoredExactly(glsIdx, goals));
        FilterSnoc(players[..i], player, ScoredExactly(glsIdx, goals));
        highScore := goals;
        topScorers := [player];
      } else {
        FilterSnoc(players[..i], player, ScoredExactly(glsIdx, highScore));
        if goals == highScore && goals > 0 {
          topScorers := topScorers + [player];
        }
      }
    }
    assert players[..|players|] == players;
    return Some(topScorers);
  }

  /** Nobody in the table has more goals than `row`. */
  predicate Unbeaten(players: Table, glsIdx: nat, row: Row)
    requires HasField(players, glsIdx) && glsIdx < |row|
  {
    forall other :: other in players ==> Goals(other, glsIdx) <= Goals(row, glsIdx)
  }

  /** The top scorers are exactly the players who scored and whom nobody outscores,
      and there are none exactly when nobody scored. */
  lemma TopScorersCharacterised(players: Table, glsIdx: nat)
    requires HasField(players, glsIdx)
    ensures forall row :: row in TopScorers(players, glsIdx) <==>
      row in players && Goals(row, glsIdx) > 0 && Unbeaten(players, glsIdx, row)
    ensures TopScorers(players, glsIdx) == [] <==>
      forall row :: row in players ==> Goals(row, glsIdx) <= 0
  {
    var m := MostGoals(players, glsIdx);
    MostGoalsIsMaximum(players, glsIdx);
    FilterMembers(players, ScoredExactly(glsIdx, m));
    if m > 0 {
      var best :| best in players && Goals(best, glsIdx) == m;
      assert best in TopScorers(players, glsIdx);
    }
    forall row | row in players && Goals(row, glsIdx) > 0 && Unbeaten(players, glsIdx, row)
      ensures row in TopScorers(players, glsIdx)
    {
      var best :| best in players && Goals(best, glsIdx) == m;
      assert Goals(best, glsIdx) <= Goals(row, glsIdx);
    }
    if TopScorers(players, glsIdx) != [] {
      assert TopScorers(players, glsIdx)[0] in TopScorers(players, glsIdx);
    }
  }

  lemma TopScorerExample()
    ensures TopScorers([["a", "0"], ["b", "3"], ["c", "5"], ["d", "5"], ["e", "2"]], 1)
      == [["c", "5"], ["d", "5"]]
    ensures TopScorers([["a", "0"], ["b", "0"]], 1) == []
  {
    var a, b, c, d, e := ["a", "0"], ["b", "3"], ["c", "5"], ["d", "5"], ["e", "2"];
    assert Goals(a, 1) == 0 by { ParseDigit('0'); }
    assert Goals(b, 1) == 3 by { ParseDigit('3'); }
    assert Goals(c, 1) == 5 && Goals(d, 1) == 5 by { ParseDigit('5'); }
    assert Goals(e, 1) == 2 by { ParseDigit('2'); }
    var t := [a, b, c, d, e];
    assert t[..4] == [a, b, c, d] && [a, b, c, d][..3] == [a, b, c];
    assert [a, b, c][..2] == [a, b] && [a, b][..1] == [a] && [a][..0] == [];
    assert MostGoals([a], 1) == 0;
    assert MostGoals([a, b], 1) == 3;
    assert MostGoals([a, b, c], 1) == 5;
    assert MostGoals([a, b, c, d], 1) == 5;
    assert MostGoals(t, 1) == 5;
    var keep := ScoredExactly(1, 5);
    assert Filter([a], keep) == [];
    assert Filter([a, b], keep) == [];
    assert Filter([a, b, c], keep) == [c];
    assert Filter([a, b, c, d], keep) == [c, d];
    assert Filter(t, keep) == [c, d];
    var b0 := ["b", "0"];
    assert Goals(b0, 1) == 0 by { ParseDigit('0'); }
    assert [a, b0][..1] == [a];
    assert MostGoals([a, b0], 1) == 0;
    assert Filter([a], ScoredExactly(1, 0)) == [];
    assert Filter([a, b0], ScoredExactly(1, 0)) == [];
  }
}
