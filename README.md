# Soccer roster shooting-efficiency pipeline, modelled in Dafny

`midterm.py` reads a roster of players from the 2023 women's World Cup, with one row
of string fields per player:

- it normalizes two fields:
  - "Pos" has its commas rewritten as pipes;
  - "Squad" such as `"ng Nigeria"` becomes a new `Country_Code` column (`"NG"`) followed by the country name;
- it selects multi-position players, one country's team, the distinct team names and the top goal scorers;
- it parses the goals / shots / shots-on-target fields and sums them per team;
- it computes conversion rates rounded to three places, labels every team with one of four efficiency tiers, and sorts the teams by on-target conversion rate (descending), then country name.

This project models that pipeline and proves its properties. There is one module per layer:

- `Wrappers`: `Option`, where `None` is a Python call that raises (ValueError).
- `Text`: the string operations the program relies on:
  - ASCII `lower`/`upper`;
  - Python's code-point order on strings (`StrLess`);
  - `int()` as an optional sign followed by decimal digits, and `str()` on integers;
  - `split` on a one-character separator.
- `Fields`: the pure field normalizers `calculate_shot_conversion_rate`, `clean_squad` and `format_player_position`.
- `Tables`: the loops that filter and group rows. Each is a method with loop invariants, proved equal to a specification function, and each function has lemmas for what the source promises:
  - `get_multi_position_players` and `get_team`;
  - `get_team_names`;
  - `get_top_scorer`.
- `Aggregates`: `get_player_shooting_numbers` (it overwrites the slice in place, modelled with an array) and `get_team_shooting_numbers` (three running counters).
- `Ranking`: the end of `main`:
  - the team metric rows;
  - the tier ladder;
  - the in-place loop that appends the rating to each row (an array of rows);
  - the `sorted` call, a stable insertion sort.
- `Roster`: the column lookups by name and the loop that normalizes every player row in place while inserting `Country_Code` in lockstep with the header.

Representation choices:

- **Rates.** A rate is an integer number of units of 10^-precision. `round(goals / shots, p)` is modelled as the exact quotient rounded to the nearest unit, ties to even, which is the rule Python's `round` applies (`IsRoundedQuotient`). Python rounds the double nearest to the quotient, so the two can differ when the exact quotient is a tie, for example 1/80 at three places (see "## Left out"). A rate of 3 places is a number of thousandths, so `conv_rate >= 0.4` is `rate >= 400`. The float `round(x, 3)` and the literal `0.4` are the same double exactly when the rounded value is 0.400, so the comparison agrees with the source at the boundaries.
- **Missing columns.** Indexing a row that is too short raises IndexError in the source. The model makes this a precondition (`HasField`, `RowsHaveColumns`), because every call site indexes a column that the header lookup found.
- **Failed `int()`.** A field that `int()` rejects makes the calling operation return `None`.
- **`clean_squad`.** `clean_squad` (midterm.py:38) takes `squad[:2]` and `squad[3:]`. Python slices clamp, so strings shorter than three characters give shorter or empty parts, and the model follows the code.

## Model

| member | source | states |
|---|---|---|
| Fields.ConversionRate | midterm.py:19-22 | Zero shots give 0 whatever the goals. Otherwise the result is goals/shots scaled by 10^precision and rounded to the nearest integer, ties to even (stated with the sign normalised for negative shots). |
| Fields.RoundHalfEven | midterm.py:20 | The floor-and-remainder computation meets the rounding specification `IsRoundedQuotient`. |
| Fields.RoundedQuotientUnique | midterm.py:20 | Only one integer meets the rounding specification, so the rate is uniquely determined. |
| Fields.ConversionRateBounds | midterm.py:19-22 | With 0 <= goals <= shots, the rate lies between 0 and 10^precision, that is, between 0.0 and 1.0. |
| Fields.CleanSquad | midterm.py:38 | The code is the upper-cased first min(2, n) characters. The name is everything from index 3 on, or empty for shorter strings. |
| Fields.CleanSquadRebuild | midterm.py:38 | When the code is not already upper-case, lower-casing it and joining it to the separator and the name gives back the original value. |
| Fields.CleanSquadExamples | midterm.py:311-312 | `"ng Nigeria"` gives `("NG", "Nigeria")` and `"za South Africa"` gives `("ZA", "South Africa")`. |
| Fields.FormatPlayerPosition | midterm.py:54 | Same length, every comma becomes a pipe, every other character is unchanged, and no comma remains. |
| Fields.FormatPlayerPositionIdempotent | midterm.py:54 | Applying the rewrite twice equals applying it once. |
| Fields.FormatPlayerPositionSplit | midterm.py:54 | With no pipe in the raw value, splitting the result on `|` gives the same positions as splitting the raw value on `,`. |
| Fields.FormatPlayerPositionExamples | midterm.py:307-308 | `"MF,DF"` gives `"MF|DF"` and `"GK"` is unchanged. |
| Text.SplitManyIff | midterm.py:70-71 | A field splits into more than one piece exactly when it contains the separator. |
| Text.JoinSplit | midterm.py:70 | Joining the pieces of a split with the separator gives the string back. |
| Text.StrLessTotal | midterm.py:469 | Two different country names are always ordered one way or the other. |
| Text.StrLessTransitive | midterm.py:469 | The string order is transitive. |
| Text.ParseShowInt | midterm.py:95-97 | `int(str(n)) == n` for every integer. |
| Tables.FilterMultiplicity | midterm.py:68-76 | A filter keeps every row that passes the test as many times as it occurs, and drops every other row. |
| Tables.FilterMembers | midterm.py:114-122 | A row is in the filtered table if and only if it is in the input and passes the test. |
| Tables.GetMultiPositionPlayers | midterm.py:68-76 | The result is the order-preserving subsequence of rows whose "Pos" splits on `|` into more than one token. A row is in it exactly when its position field contains `|`. |
| Tables.GetTeam | midterm.py:114-122 | The result is the order-preserving subsequence of rows whose "Squad" equals the requested squad ignoring case, in both directions of the membership test. |
| Tables.TeamIgnoresCase | midterm.py:118 | Requesting two names that differ only in case gives the same team. |
| Tables.GetTeamNames | midterm.py:137-143 | The result is the squad column with repeated names dropped (`Distinct`). |
| Tables.DistinctMembers | midterm.py:137-143 | The names are exactly the squad values that occur, with no name listed twice. |
| Tables.DistinctFirstOccurrenceOrder | midterm.py:137-143 | The names are listed in the order of their first occurrence among the players. |
| Tables.DistinctExample | midterm.py:137-143 | `[A, B, A, C, B]` gives `[A, B, C]`. |
| Tables.TeamNamesCoverPlayers | midterm.py:137-143 | Every listed name has a non-empty team, and every player belongs to the team of its own listed squad name. |
| Tables.MostGoalsIsMaximum | midterm.py:186-199 | The running maximum, starting from 0, is at least every player's goals, and when positive some player scored it. |
| Tables.GetTopScorer | midterm.py:185-201 | The result fails exactly when some player's "Gls" is not an integer. Otherwise it is, in input order, the players whose goals equal the maximum. |
| Tables.TopScorersCharacterised | midterm.py:185-201 | A row is a top scorer if and only if it is a player with goals > 0 that nobody beats. The result is empty if and only if nobody scored. |
| Tables.TopScorerExample | midterm.py:185-201 | Goals `[0, 3, 5, 5, 2]` give the two rows with 5, and all-zero goals give no rows. |
| Aggregates.ParseRangeValues | midterm.py:94-97 | Parsing the slice succeeds exactly when every field is an integer literal, and then yields each field's value in order. |
| Aggregates.ParseRangeShown | midterm.py:94-97 | Fields written from integers parse back to those integers. |
| Aggregates.GetPlayerShootingNumbers | midterm.py:92-99 | The in-place conversion of the clamped slice `player[start:stop]` returns the parsed values, or fails as soon as a field is not an integer. |
| Aggregates.PlayerShootingExample | midterm.py:384-394 | A row whose fields 8 to 10 are `"1"`, `"10"`, `"4"` gives goals 1, shots 10 and shots on target 4. |
| Aggregates.TeamTotalsSnoc | midterm.py:163-167 | One more player adds that player's numbers, componentwise, to the running totals. |
| Aggregates.TeamTotalsFailIff | midterm.py:163-164 | The team totals fail exactly when some player's numbers fail to parse or are not three numbers. |
| Aggregates.GetTeamShootingNumbers | midterm.py:159-169 | The three counters end as the componentwise sum of every player's (goals, shots, shots on target), and (0, 0, 0) for an empty team. |
| Aggregates.TeamTotalsRemove | midterm.py:163-167 | The totals equal the totals without any one player plus that player's numbers. |
| Aggregates.TeamTotalsPermutation | midterm.py:159-169 | Any reordering of the team gives the same totals. |
| Ranking.TeamMetricsOf | midterm.py:435-442 | The team row holds the country, the three totals and both rates to three places, each 0 when its divisor is 0. |
| Ranking.TeamMetricsRatesBounded | midterm.py:440-441 | With goals <= shots on target <= shots, both rates lie between 0 and 1000 thousandths. |
| Ranking.TierFor | midterm.py:455-462 | Top Tier if and only if rate >= 0.4; Upper Middle if and only if 0.3 <= rate < 0.4; Lower Middle if and only if 0.2 <= rate < 0.3; Bottom if and only if rate < 0.2. |
| Ranking.LabelInjective | midterm.py:455-462 | The four labels are pairwise different. |
| Ranking.TierMonotone | midterm.py:455-462 | A higher rate never gets a lower tier. |
| Ranking.TierBoundaries | midterm.py:455-462 | Each lower bound is inclusive: 400 thousandths is Top Tier and 399 is not, and likewise at 300 and 200. |
| Ranking.TierExample | midterm.py:435-462 | China PR with 1 goal, 10 shots and 4 on target has rates 100 and 250 thousandths, so its label is Lower Middle Tier. |
| Ranking.RateTeams | midterm.py:450-465 | Every row gets exactly the ladder's rating for its on-target rate. Nothing else in any row changes. |
| Ranking.RanksBeforeTotal | midterm.py:469 | Of two rows, one ranks before the other unless they have the same rate and country. |
| Ranking.RanksBeforeAsymmetric | midterm.py:469 | The ranking is a strict order. |
| Ranking.RanksBeforeTransitive | midterm.py:469 | The ranking is transitive. |
| Ranking.NotAfterTransitive | midterm.py:469 | "Does not rank after" is transitive. |
| Ranking.InsertPermutation | midterm.py:469 | Inserting a row adds exactly that row. |
| Ranking.InsertRanked | midterm.py:469 | Inserting into a ranked list keeps it ranked. |
| Ranking.SortTeamsPermutation | midterm.py:469 | The sorted teams are a permutation of the teams. |
| Ranking.SortTeamsRanked | midterm.py:469 | The sorted teams are in descending on-target rate, with equal rates in ascending country order. |
| Ranking.SortTeamsRankedUnchanged | midterm.py:469 | Teams already in that order are left as they are. |
| Ranking.SortTeamsIdempotent | midterm.py:469 | Sorting the sorted list again changes nothing. |
| Ranking.InsertWithKey | midterm.py:469 | Inserting a row never moves it past a row with the same key. |
| Ranking.SortTeamsStable | midterm.py:469 | The sort is stable: for every key, the rows with that key keep their relative order. |
| Ranking.SortedTiersInOrder | midterm.py:450-469 | Once every team is rated, the sorted table lists all Top Tier teams first, then Upper Middle, Lower Middle and Bottom. |
| Roster.IndexOf | midterm.py:317-318 | The first column with the given name. It is absent exactly when no column has that name, which is where `index` raises. |
| Roster.FirstAt | midterm.py:317-318 | A column that holds the name, with no earlier column holding it, is the one found. |
| Roster.InsertHeader | midterm.py:327 | The header gains "Country_Code" at the squad index. Earlier columns stay put and later ones shift right by one. |
| Roster.NormalizeRow | midterm.py:321-325 | The row grows by one field. The code and the name of the squad value sit at the squad index and the next index. The position field is rewritten, and every other field is unchanged at its shifted index. |
| Roster.ColumnsAligned | midterm.py:320-327 | Header and row stay the same length. Every old column keeps its name and its value at its shifted index. "Country_Code" sits over the code, and "Squad" over the name. |
| Roster.IndexAfterInsert | midterm.py:327-329 | After the insertion, "Squad" is found at the old squad index + 1, and columns to its left are found where they were. |
| Roster.InsertCountryCodeColumn | midterm.py:320-329 | Every player row is normalized in place, the header gains the column, and the returned squad index is shifted by one. |

## Left out

- Reading and writing CSV files, `Path.resolve`, every `print`, and the asserts on the data file's contents (its first and last rows, and the count of 32 countries). All of these depend on the external file, not on the program's logic.
- The truncation of every row to its first ten fields (midterm.py:282-283), and the stray expression `1.4`.
- The per-player rate loop (midterm.py:399-410) is not modelled. For each player row it appends `ConversionRate(goals, shots, 3)` and `ConversionRate(goals, shots_on_target, 3)`, and it then extends the header with `shots_conv_rate` and `shots_on_target_conv_rate`.
- The loops of `main` that drive the core: team lookups per country, top scorers per country, and building the team table. The functions they call are modelled; the driving loops are not.
- Fields.ConversionRate: rates are exact decimal values in units of 10^-precision, not IEEE-754 doubles. Python's `round` rounds the double nearest to goals/shots, which can differ from rounding the exact quotient when that double lies just across a tie. Negative precision is not modelled.
- Ranking.TierFor: `float(team[-1])` re-parses the stored rate. In the model the rate is already a number of thousandths.
- Text.ParseInt: `int()` also accepts surrounding whitespace, underscores between digits and non-ASCII digits. The model accepts only an optional sign followed by ASCII digits.
- ASCII case mapping only: full Unicode `lower`/`upper` is not modelled.
- Text.StrLess: Python orders strings by code point. The model orders them by Dafny `char`, which agrees for characters of the Basic Multilingual Plane.
- IndexError on a row too short for the column being indexed is not modelled as an error path. It is a precondition instead (`HasField` in the `Tables` operations, the column bounds of `Roster.NormalizeRow`, `RowsHaveColumns` in `Roster.InsertCountryCodeColumn`), because every call site indexes a column that the header lookup found.
- Negative indices and slice steps are not modelled. Every index is a column position found in the header.
- Roster.InsertCountryCodeColumn: rows are values in an array. If the same row object occurred twice in the Python list, it would be normalized twice; the model does not capture that aliasing.
- Aggregates.GetPlayerShootingNumbers: the slice bounds are two naturals rather than a `slice` object.
