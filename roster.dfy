/** Challenge 03 of midterm.py's `main`: the columns are looked up by name, every
    player row is normalized in place (positions rewritten, the "Squad" value split into
    a country code inserted in front of it and the country name), the header gets a
    matching "Country_Code" column, and the squad index moves one column right. */
module Roster {
  import opened Wrappers
  import opened Text
  import opened Fields
  import opened Tables

  /** `headers.index(name)`: the first column with that name; `None` where Python
      raises ValueError. */
  function IndexOf(headers: Row, name: String): (r: Option<nat>)
    ensures r.Some? ==> r.value < |headers| && headers[r.value] == name
    ensures r.Some? ==> forall j :: 0 <= j < r.value ==> headers[j] != name
    ensures r.None? <==> name !in headers
  {
    if |headers| == 0 then None
    else if headers[0] == name then Some(0)
    else
      var rest := IndexOf(headers[1..], name);
      if rest.Some? then Some(rest.value + 1) else None
  }

  /** The name of the inserted column. */
  const CountryCode: String := "Country_Code"

  /** `headers.insert(squad_idx, "Country_Code")`, with `squad_idx` a column index. */
  function InsertHeader(headers: Row, squadIdx: nat): (r: Row)
    requires squadIdx < |headers|
    ensures |r| == |headers| + 1 && r[squadIdx] == CountryCode
    ensures forall j :: 0 <= j < squadIdx ==> r[j] == headers[j]
    ensures forall j :: squadIdx < j < |r| ==> r[j] == headers[j - 1]
  {
    headers[..squadIdx] + [CountryCode] + headers[squadIdx..]
  }

  /** The row after one pass of the loop body: the position field rewritten, then the
      code of the (possibly rewritten) squad value inserted at `squadIdx` and the
      original squad cell, now one to the right, replaced by the country name. */
  function NormalizeRow(row: Row, posIdx: nat, squadIdx: nat): (r: Row)
    requires posIdx < |row| && squadIdx < |row|
    ensures |r| == |row| + 1
    ensures var squad := if posIdx == squadIdx then FormatPlayerPosition(row[squadIdx]) else row[squadIdx];
      r[squadIdx] == CleanSquad(squad).0 && r[squadIdx + 1] == CleanSquad(squad).1
    ensures forall j :: 0 <= j < squadIdx && j != posIdx ==> r[j] == row[j]
    ensures forall j :: squadIdx < j < |row| && j != posIdx ==> r[j + 1] == row[j]
    ensures posIdx < squadIdx ==> r[posIdx] == FormatPlayerPosition(row[posIdx])
    ensures posIdx > squadIdx ==> r[posIdx + 1] == FormatPlayerPosition(row[posIdx])
  {
    var formatted := row[posIdx := FormatPlayerPosition(row[posIdx])];
    var (code, name) := CleanSquad(formatted[squadIdx]);
    formatted[..squadIdx] + [code, name] + formatted[squadIdx + 1..]
  }

  /** Where a column of the old layout sits in the new one. */
  function Shifted(j: nat, squadIdx: nat): nat
  {
    if j < squadIdx then j else j + 1
  }

  /** Header and rows move in lockstep: every old column other than the squad keeps its
      name and its value at its shifted index, the new column is "Country_Code" over
      the codes, and the column right after it is still "Squad", now over the names. */
  lemma ColumnsAligned(headers: Row, row: Row, posIdx: nat, squadIdx: nat)
    requires |row| == |headers| && posIdx < |row| && squadIdx < |row|
    ensures |NormalizeRow(row, posIdx, squadIdx)| == |InsertHeader(headers, squadIdx)|
    ensures forall j :: 0 <= j < |headers| && j != squadIdx ==>
      InsertHeader(headers, squadIdx)[Shifted(j, squadIdx)] == headers[j] &&
      NormalizeRow(row, posIdx, squadIdx)[Shifted(j, squadIdx)] ==
        (if j == posIdx then FormatPlayerPosition(row[j]) else row[j])
    ensures InsertHeader(headers, squadIdx)[squadIdx + 1] == headers[squadIdx]
    ensures posIdx != squadIdx ==>
      NormalizeRow(row, posIdx, squadIdx)[squadIdx] == CleanSquad(row[squadIdx]).0 &&
      NormalizeRow(row, posIdx, squadIdx)[squadIdx + 1] == CleanSquad(row[squadIdx]).1
  {
  }

  /** After the insertion `squad_idx + 1` is where "Squad" is found, provided no
      "Country_Code" column came before it; a column left of the squad is found where it
      was. */
  lemma {:induction false} IndexAfterInsert(headers: Row, squadIdx: nat, name: String)
    requires IndexOf(headers, "Squad") == Some(squadIdx)
    requires CountryCode !in headers[..squadIdx]
    ensures IndexOf(InsertHeader(headers, squadIdx), "Squad") == Some(squadIdx + 1)
    ensures (IndexOf(headers, name).Some? && IndexOf(headers, name).value < squadIdx) ==>
      IndexOf(InsertHeader(headers, squadIdx), name) == IndexOf(headers, name)
  {
    var r := InsertHeader(headers, squadIdx);
    FirstAt(r, "Squad", squadIdx + 1);
    var found := IndexOf(headers, name);
    if found.Some? && found.value < squadIdx {
      FirstAt(r, name, found.value);
    }
  }

  /** IndexOf finds `i` when `i` holds the name and no earlier column does. */
  lemma {:induction false} FirstAt(headers: Row, name: String, i: nat)
    requires i < |headers| && headers[i] == name
    requires forall j :: 0 <= j < i ==> headers[j] != name
    ensures IndexOf(headers, name) == Some(i)
  {
    if i > 0 {
      FirstAt(headers[1..], name, i - 1);
    }
  }

  predicate RowsHaveColumns(players: seq<Row>, posIdx: nat, squadIdx: nat)
  {
    forall k :: 0 <= k < |players| ==> posIdx < |players[k]| && squadIdx < |players[k]|
  }

  /** The loop over the players followed by the header insertion and `squad_idx += 1`.
      Each row is mutated in place; the returned index is the squad column's new
      position. */
  method InsertCountryCodeColumn(players: array<Row>, headers: Row, posIdx: nat, squadIdx: nat)
    returns (newHeaders: Row, newSquadIdx: nat)
    requires RowsHaveColumns(players[..], posIdx, squadIdx)
    requires squadIdx < |headers|
    modifies players
    ensures forall k :: 0 <= k < players.Length ==>
      old(posIdx < |players[k]| && squadIdx < |players[k]|) &&
      players[k] == NormalizeRow(old(players[k]), posIdx, squadIdx)
    ensures newHeaders == InsertHeader(headers, squadIdx)
    ensures newSquadIdx == squadIdx + 1
  {
    for i := 0 to players.Length
      invariant forall k :: 0 <= k < i ==>
        old(posIdx < |players[k]| && squadIdx < |players[k]|) &&
        players[k] == NormalizeRow(old(players[k]), posIdx, squadIdx)
      invariant forall k :: i <= k < players.Length ==> players[k] == old(players[k])
    {
      var player := players[i];
      assert posIdx < |player| && squadIdx < |player| by {
        assert player == players[..][i];
      }
      ghost var original := player;
      player := player[posIdx := FormatPlayerPosition(player[posIdx])];
      var (code, squad) := CleanSquad(player[squadIdx]);
      player := player[..squadIdx] + [code] + player[squadIdx..];
      var shiftedIdx := squadIdx + 1;
      player := player[shiftedIdx := squad];
      assert player == NormalizeRow(original, posIdx, squadIdx);
      players[i] := player;
    }
    newHeaders := headers[..squadIdx] + [CountryCode] + headers[squadIdx..];
    newSquadIdx := squadIdx + 1;
  }
}
