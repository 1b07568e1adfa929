/** Money (packages/shared/src/money.ts): dollars as exact reals, cents as integers. */
module Money {
  import opened Reals

  const UNIT_CENTS := 50
  const FARE_UNIT_USD := 0.5

  /** Math.round: half goes up. */
  function Round(x: real): int {
    (x + 0.5).Floor
  }

  function ToCents(usd: real): int {
    Round(usd * 100.0)
  }

  function FromCents(cents: int): real {
    cents as real / 100.0
  }

  function RoundToCents(usd: real): real {
    FromCents(ToCents(usd))
  }

  /** Cents on the 50c grid. */
  predicate OnGrid(cents: int) {
    cents % UNIT_CENTS == 0
  }

  /** A fare to the nearest 50c, never below 50c. */
  function RoundFare(usd: Number): real {
    if usd.NonFinite? then FARE_UNIT_USD
    else
      var units := Round(ToCents(usd.value) as real / 50.0);
      FromCents((if units < 1 then 1 else units) * UNIT_CENTS)
  }

  lemma CentsComeBack(cents: int)
    ensures ToCents(FromCents(cents)) == cents
  {}

  /** The nearest cent: at most half a cent away, the higher one in the middle. */
  lemma ToCentsIsNearest(usd: real)
    ensures -0.5 < ToCents(usd) as real - usd * 100.0 <= 0.5
  {}

  /** Of all fares on the grid from 50c up none is nearer to a price in whole cents, and between two equally near
      the higher one is taken. */
  lemma RoundFareIsNearest(cents: int, g: int)
    requires g >= UNIT_CENTS && OnGrid(g)
    ensures var f := ToCents(RoundFare(Finite(FromCents(cents))));
            && OnGrid(f) && f >= 50
            && (if f >= cents then f - cents else cents - f) <= (if g >= cents then g - cents else cents - g)
            && (g > f ==> (if f >= cents then f - cents else cents - f) < g - cents)
  {
    CentsComeBack(cents);
    var units := Round(cents as real / 50.0);
    RoundUnits(cents, units);
    CentsComeBack((if units < 1 then 1 else units) * UNIT_CENTS);
    var n := g / UNIT_CENTS;
    assert g == n * UNIT_CENTS;
  }

  lemma RoundUnits(cents: int, units: int)
    requires units == Round(cents as real / 50.0)
    ensures 50 * units - 25 <= cents < 50 * units + 25
  {}

  lemma RoundFareIsOnGrid(usd: Number)
    ensures OnGrid(ToCents(RoundFare(usd))) && ToCents(RoundFare(usd)) >= 50
    ensures FromCents(ToCents(RoundFare(usd))) == RoundFare(usd)
  {
    var units := if usd.Finite? then Round(ToCents(usd.value) as real / 50.0) else 1;
    var n := if units < 1 then 1 else units;
    assert RoundFare(usd) == FromCents(n * UNIT_CENTS);
    CentsComeBack(n * UNIT_CENTS);
  }

  /** A fare on the grid is left alone. */
  lemma RoundFareOfGrid(cents: int)
    requires OnGrid(cents) && cents >= UNIT_CENTS
    ensures RoundFare(Finite(FromCents(cents))) == FromCents(cents)
  {
    CentsComeBack(cents);
    var n := cents / UNIT_CENTS;
    RoundUnits(cents, Round(cents as real / 50.0));
  }
}
