/** Field normalizers of midterm.py: the safe conversion-rate division, the split of a
    "Squad" value into country code and country name, and the comma-to-pipe rewrite of
    the "Pos" value. */
module Fields {
  import opened Text

  // ---------------------------------------------------------------------------
  // calculate_shot_conversion_rate
  // ---------------------------------------------------------------------------

  function Pow10(n: nat): (p: nat)
    ensures p >= 1
  {
    if n == 0 then 1 else 10 * Pow10(n - 1)
  }

  /** `q` is n/d rounded to the nearest integer, ties going to the even neighbour
      (the rule Python's `round` applies). */
  predicate IsRoundedQuotient(q: int, n: int, d: int)
    requires d > 0
  {
    -d <= 2 * (n - q * d) <= d &&
    ((2 * (n - q * d) == d || 2 * (n - q * d) == -d) ==> q % 2 == 0)
  }

  /** Round-half-to-even of n/d, computed from the floor quotient and the remainder. */
  function RoundHalfEven(n: int, d: int): (q: int)
    requires d > 0
    ensures IsRoundedQuotient(q, n, d)
  {
    var f, rem := n / d, n % d;
    assert n == f * d + rem;
    assert (f + 1) * d == f * d + d;
    if 2 * rem < d then f
    else if 2 * rem > d then f + 1
    else if f % 2 == 0 then f
    else f + 1
  }

  lemma MulMonotone(a: int, b: int, d: int)
    requires a <= b && d >= 0
    ensures a * d <= b * d
  {
    var k := b - a;
    assert b * d == a * d + k * d;
  }

  /** Two quotients that differ by k leave errors that differ by k * d. */
  lemma ErrorGap(lo: int, hi: int, n: int, d: int)
    requires lo < hi && d > 0
    ensures (n - lo * d) - (n - hi * d) >= d
    ensures hi - lo >= 2 ==> (n - lo * d) - (n - hi * d) >= 2 * d
  {
    var k := hi - lo;
    assert (n - lo * d) - (n - hi * d) == k * d;
    MulMonotone(1, k, d);
    if k >= 2 {
      MulMonotone(2, k, d);
    }
  }

  /** There is only one correctly rounded quotient, so the contract of RoundHalfEven
      determines its result. */
  lemma RoundedQuotientUnique(q1: int, q2: int, n: int, d: int)
    requires d > 0 && IsRoundedQuotient(q1, n, d) && IsRoundedQuotient(q2, n, d)
    ensures q1 == q2
  {
    if q1 < q2 {
      ErrorGap(q1, q2, n, d);
    } else if q2 < q1 {
      ErrorGap(q2, q1, n, d);
    }
  }

  /** `calculate_shot_conversion_rate(goals, shots, precision)`, expressed as an integer
      number of units of 10^-precision: goals/shots rounded to `precision` decimal
      places, and 0 when `shots` is 0 (the ZeroDivisionError branch). */
  function ConversionRate(goals: int, shots: int, precision: nat): (r: int)
    ensures shots == 0 ==> r == 0
    ensures shots > 0 ==> IsRoundedQuotient(r, goals * Pow10(precision), shots)
    ensures shots < 0 ==> IsRoundedQuotient(r, -goals * Pow10(precision), -shots)
  {
    if shots == 0 then 0
    else if shots > 0 then RoundHalfEven(goals * Pow10(precision), shots)
    else RoundHalfEven(-goals * Pow10(precision), -shots)
  }

  lemma RoundedQuotientBetween(q: int, n: int, d: int, m: int)
    requires d > 0 && IsRoundedQuotient(q, n, d)
    requires 0 <= n <= m * d
    ensures 0 <= q <= m
  {
    if q < 0 {
      ErrorGap(q, 0, n, d);
    }
    if q > m {
      ErrorGap(m, q, n, d);
    }
  }

  /** For non-negative counts the rate lies between 0 and 1 when goals <= shots. */
  lemma ConversionRateBounds(goals: nat, shots: nat, precision: nat)
    requires goals <= shots
    ensures 0 <= ConversionRate(goals, shots, precision) <= Pow10(precision)
  {
    var p := Pow10(precision);
    if shots > 0 {
      MulMonotone(goals, shots, p);
      assert shots * p == p * shots;
      RoundedQuotientBetween(ConversionRate(goals, shots, precision), goals * p, shots, p);
    }
  }

  // ---------------------------------------------------------------------------
  // clean_squad
  // ---------------------------------------------------------------------------

  function Min(a: nat, b: nat): nat { if a < b then a else b }

  /** `clean_squad(squad)`: `(squad[:2].upper(), squad[3:])`. Python slices clamp to
      the string, so shorter inputs give shorter (possibly empty) parts. */
  function CleanSquad(squad: String): (r: (String, String))
    ensures |r.0| == Min(2, |squad|)
    ensures forall i :: 0 <= i < |r.0| ==> r.0[i] == UpperChar(squad[i])
    ensures |squad| >= 3 ==> r.1 == squad[3..]
    ensures |squad| < 3 ==> r.1 == []
  {
    (Upper(squad[..Min(2, |squad|)]), squad[Min(3, |squad|)..])
  }

  /** Nothing but the separator and the letter case is lost: a squad value whose code
      is not already upper-case is rebuilt from the two parts. */
  lemma CleanSquadRebuild(squad: String)
    requires |squad| >= 3
    requires !IsUpperLetter(squad[0]) && !IsUpperLetter(squad[1])
    ensures Lower(CleanSquad(squad).0) + [squad[2]] + CleanSquad(squad).1 == squad
  {
    var (code, name) := CleanSquad(squad);
    LowerUpper(squad[..2]);
    assert squad == squad[..2] + [squad[2]] + squad[3..];
  }

  lemma CleanSquadExamples()
    ensures CleanSquad("ng Nigeria") == ("NG", "Nigeria")
    ensures CleanSquad("za South Africa") == ("ZA", "South Africa")
  {
    var a := CleanSquad("ng Nigeria");
    assert a.0 == "NG";
    assert a.1 == "Nigeria";
    var b := CleanSquad("za South Africa");
    assert b.0 == "ZA";
    assert b.1 == "South Africa";
  }

  // ---------------------------------------------------------------------------
  // format_player_position
  // ---------------------------------------------------------------------------

  /** `position.replace(",", "|")`. */
  function FormatPlayerPosition(position: String): (r: String)
    ensures |r| == |position|
    ensures forall i :: 0 <= i < |r| ==>
      r[i] == (if position[i] == ',' then '|' else position[i])
    ensures ',' !in r
  {
    if |position| == 0 then []
    else [if position[0] == ',' then '|' else position[0]] + FormatPlayerPosition(position[1..])
  }

  /** A second pass finds no comma left, so it changes nothing. */
  lemma FormatPlayerPositionIdempotent(position: String)
    ensures FormatPlayerPosition(FormatPlayerPosition(position)) == FormatPlayerPosition(position)
  {
    var once := FormatPlayerPosition(position);
    assert forall i :: 0 <= i < |once| ==> once[i] != ',';
  }

  /** Rewriting the delimiter keeps the position list: when the raw value holds no
      pipe, splitting the result on "|" gives the same positions as splitting the raw
      value on ",". */
  lemma {:induction false} FormatPlayerPositionSplit(position: String)
    requires '|' !in position
    ensures Split(FormatPlayerPosition(position), '|') == Split(position, ',')
  {
    if |position| > 0 {
      FormatPlayerPositionSplit(position[1..]);
      assert FormatPlayerPosition(position)[1..] == FormatPlayerPosition(position[1..]);
    }
  }

  lemma FormatPlayerPositionExamples()
    ensures FormatPlayerPosition("MF,DF") == "MF|DF"
    ensures FormatPlayerPosition("GK") == "GK"
  {
    assert FormatPlayerPosition("MF,DF")[2] == '|';
  }
}
