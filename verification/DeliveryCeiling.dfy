/** The delivery price ceiling and its ladder of offers (packages/shared/src/delivery-ceiling.ts). */
module DeliveryCeiling {
  import opened Options
  import opened Reals
  import opened Money

  const FLOOR_SHARE := 0.8
  const MAX_MULTIPLE := 2
  const START_SHARE := 0.85
  const MIN_USD := 1.5
  const TOP_UPS_USD := [0.5, 1.0, 2.0]

  datatype Bounds = Bounds(recommended: real, min: real, max: real)

  function MaxReal(x: real, y: real): real {
    if x >= y then x else y
  }

  function MinReal(x: real, y: real): real {
    if x <= y then x else y
  }

  function MaxInt(x: int, y: int): int {
    if x >= y then x else y
  }

  function MinInt(x: int, y: int): int {
    if x <= y then x else y
  }

  /** Down to the 50c grid. */
  function Down50(usd: real): real {
    FromCents((ToCents(usd) as real / 50.0).Floor * UNIT_CENTS)
  }

  function CeilingBounds(recommended: Number): Bounds {
    var rec := RoundFare(recommended);
    var min := MaxReal(MIN_USD, RoundFare(Finite(rec * FLOOR_SHARE)));
    Bounds(rec, MinReal(min, rec), FromCents(ToCents(rec) * MAX_MULTIPLE))
  }

  predicate IsValidCeiling(ceiling: Number, recommended: Number) {
    && ceiling.Finite?
    && var c := ToCents(ceiling.value);
       var b := CeilingBounds(recommended);
       OnGrid(c) && ToCents(b.min) <= c <= ToCents(b.max)
  }

  function StartingOffer(recommended: Number, ceiling: real): real {
    var b := CeilingBounds(recommended);
    var start := MaxReal(b.min, Down50(b.recommended * START_SHARE));
    FromCents(MinInt(ToCents(start), ToCents(ceiling)))
  }

  // ---------------------------------------------------------------- bounds and start

  /** A price that is a whole number of cents on the 50c grid. */
  predicate GridPrice(usd: real) {
    OnGrid(ToCents(usd)) && usd == FromCents(ToCents(usd))
  }

  lemma GridPriceIs(cents: int)
    requires OnGrid(cents)
    ensures GridPrice(FromCents(cents))
  {
    CentsComeBack(cents);
  }

  lemma GridPriceOfTwo(x: real, y: real)
    requires GridPrice(x) && GridPrice(y)
    ensures GridPrice(MaxReal(x, y)) && GridPrice(MinReal(x, y))
  {}

  lemma FareIsPrice(usd: Number)
    ensures GridPrice(RoundFare(usd)) && RoundFare(usd) >= 0.5
  {
    RoundFareIsOnGrid(usd);
    FromCentsMonotone(UNIT_CENTS, ToCents(RoundFare(usd)));
  }

  lemma FromCentsMonotone(c: int, d: int)
    requires c <= d
    ensures FromCents(c) <= FromCents(d)
  {}

  lemma DoublePrice(c: int)
    requires OnGrid(c)
    ensures FromCents(c * MAX_MULTIPLE) == 2.0 * FromCents(c) && OnGrid(c * MAX_MULTIPLE)
  {}

  lemma BoundsAreOnGrid(recommended: Number)
    ensures var b := CeilingBounds(recommended);
            && GridPrice(b.recommended) && GridPrice(b.min) && GridPrice(b.max)
            && 0.5 <= b.min <= b.recommended <= b.max && b.max == 2.0 * b.recommended
  {
    var rec := RoundFare(recommended);
    var low := RoundFare(Finite(rec * FLOOR_SHARE));
    FareIsPrice(recommended);
    FareIsPrice(Finite(rec * FLOOR_SHARE));
    GridPriceIs(150);
    assert MIN_USD == FromCents(150);
    GridPriceOfTwo(MIN_USD, low);
    GridPriceOfTwo(MaxReal(MIN_USD, low), rec);
    DoublePrice(ToCents(rec));
    GridPriceIs(ToCents(rec) * MAX_MULTIPLE);
  }

  /** The bounds in numbers, for a recommended price of `units` half dollars: at most twice that; at least the nearest half
      dollar to 80% of it, the upper one in the middle, and the price itself up to $1.50. */
  lemma BoundsInNumbers(recommended: Number, units: int)
    requires RoundFare(recommended) == FromCents(units * 50)
    ensures var b := CeilingBounds(recommended);
            && b.recommended == FromCents(units * 50) && b.max == FromCents(units * 100)
            && (units <= 3 ==> b.min == b.recommended)
            && (units > 3 ==> 1.5 <= b.min && units * 40 - 25 < ToCents(b.min) <= units * 40 + 25)
  {
    var rec := RoundFare(recommended);
    RoundFareIsOnGrid(recommended);
    CentsComeBack(units * 50);
    var low := FloorFare(units);
    CentsComeBack(low);
    CentsComeBack(150);
    RoundFareIsOnGrid(Finite(rec * FLOOR_SHARE));
    assert RoundFare(Finite(rec * FLOOR_SHARE)) == FromCents(low);
    if units <= 3 { FromCentsMonotone(units * 50, 150); } else { FloorBelow(units, low); }
  }

  /** 80% of half dollars is a whole number of cents. */
  lemma FloorFare(units: int) returns (low: int)
    requires units >= 1
    ensures low >= 50 && OnGrid(low) && RoundFare(Finite(FromCents(units * 50) * FLOOR_SHARE)) == FromCents(low)
    ensures units > 1 ==> units * 40 - 25 < low <= units * 40 + 25
  {
    assert FromCents(units * 50) * FLOOR_SHARE == FromCents(units * 40);
    CentsComeBack(units * 40);
    var n := Round((units * 40) as real / 50.0);
    RoundUnits(units * 40, n);
    low := (if n < 1 then 1 else n) * UNIT_CENTS;
  }

  lemma FloorBelow(units: int, low: int)
    requires units > 3 && OnGrid(low) && units * 40 - 25 < low <= units * 40 + 25
    ensures 150 <= low <= units * 50
  {
    var n := low / 50;
    assert low == n * 50;
  }

  /** A ceiling is taken exactly when it comes to a half dollar in whole cents, from the lower bound to twice the
      recommended price. */
  lemma ValidCeilingIff(cents: int, recommended: Number)
    ensures var b := CeilingBounds(recommended);
            IsValidCeiling(Finite(FromCents(cents)), recommended)
            <==> cents % 50 == 0 && b.min <= FromCents(cents) <= 2.0 * b.recommended
    ensures !IsValidCeiling(NonFinite, recommended)
  {
    var b := CeilingBounds(recommended);
    BoundsAreOnGrid(recommended);
    CentsComeBack(cents);
    CentsOrder(ToCents(b.min), cents);
    CentsOrder(cents, ToCents(b.max));
  }

  lemma CentsOrder(c: int, d: int)
    ensures c <= d <==> FromCents(c) <= FromCents(d)
  {}

  /** Rounding to cents first never lifts the 85% start: on the grid it is the greatest price of at most 85% of
      the recommended one. */
  lemma DownIsGreatest(units: int, g: int)
    requires units >= 1 && OnGrid(g)
    ensures var rec := FromCents(units * 50); var s := Down50(rec * 0.85);
            GridPrice(s) && s <= rec * 0.85 && (FromCents(g) <= rec * 0.85 ==> FromCents(g) <= s)
  {
    var q := DownUnits(units);
    GridPriceIs(q * UNIT_CENTS);
    ShareOf(units);
    GridBelow(units, q, g);
  }

  lemma ShareOf(units: int)
    ensures FromCents(units * 50) * 0.85 == (85 * units) as real / 200.0
  {}

  lemma DownUnits(units: int) returns (q: int)
    requires units >= 1
    ensures Down50(FromCents(units * 50) * 0.85) == FromCents(q * 50)
    ensures 100 * q <= 85 * units < 100 * q + 100
  {
    var c := ToCents(FromCents(units * UNIT_CENTS) * START_SHARE);
    CentsOfShare(units, c);
    q := (c as real / 50.0).Floor;
    FloorOfFifty(c, q);
    ShareOnGrid(units, c, q);
  }

  lemma GridBelow(units: int, q: int, g: int)
    requires 100 * q <= 85 * units < 100 * q + 100 && OnGrid(g)
    ensures FromCents(q * 50) <= (85 * units) as real / 200.0
    ensures FromCents(g) <= (85 * units) as real / 200.0 ==> FromCents(g) <= FromCents(q * 50)
  {
    InHalfCents(q * UNIT_CENTS, 85 * units);
    InHalfCents(g, 85 * units);
    GridBelowInCents(units, q, g / UNIT_CENTS);
  }

  lemma InHalfCents(c: int, h: int)
    ensures FromCents(c) <= h as real / 200.0 <==> 2 * c <= h
  {}

  lemma GridBelowInCents(units: int, q: int, n: int)
    requires 100 * q <= 85 * units < 100 * q + 100
    ensures 100 * n <= 85 * units ==> n <= q
  {}

  lemma CentsOfShare(units: int, c: int)
    requires c == ToCents(FromCents(units * UNIT_CENTS) * START_SHARE)
    ensures 2 * c <= 85 * units + 1 && 85 * units < 2 * c + 1
  {
    assert FromCents(units * UNIT_CENTS) * START_SHARE * 100.0 == (85 * units) as real / 2.0;
  }

  lemma FloorOfFifty(c: int, q: int)
    requires q == (c as real / 50.0).Floor
    ensures 50 * q <= c < 50 * q + 50
  {}

  /** 42.5 cents times the units is never half a cent short of the grid. */
  lemma ShareOnGrid(units: int, c: int, q: int)
    requires 2 * c <= 85 * units + 1 && 85 * units < 2 * c + 1 && 50 * q <= c < 50 * q + 50
    ensures 100 * q <= 85 * units < 100 * q + 100
  {}

  lemma RecommendedUnits(recommended: Number) returns (units: int)
    ensures units >= 1 && CeilingBounds(recommended).recommended == FromCents(units * 50)
  {
    RoundFareIsOnGrid(recommended);
    units := ToCents(RoundFare(recommended)) / UNIT_CENTS;
  }

  /** The start before the ceiling caps it: on the grid, and at most 85% unless it is the floor. */
  lemma UncappedStart(recommended: Number) returns (start: real)
    ensures var b := CeilingBounds(recommended);
            && start == MaxReal(b.min, Down50(b.recommended * 0.85)) && GridPrice(start)
            && (start <= b.recommended * 0.85 || start == b.min)
  {
    var b := CeilingBounds(recommended);
    BoundsAreOnGrid(recommended);
    var units := RecommendedUnits(recommended);
    DownIsGreatest(units, 0);
    start := MaxReal(b.min, Down50(b.recommended * START_SHARE));
  }

  lemma CentsMonotone(x: real, y: real)
    requires x <= y
    ensures ToCents(x) <= ToCents(y)
  {}

  /** For every recommended price and valid ceiling: min <= start <= ceiling, on the grid, and above 85% only if it
      is the floor. */
  lemma StartIsBetween(recommended: Number, ceiling: Number)
    requires IsValidCeiling(ceiling, recommended)
    ensures var b := CeilingBounds(recommended);
            var s := StartingOffer(recommended, ceiling.value);
            && GridPrice(s) && ToCents(b.min) <= ToCents(s) <= ToCents(ceiling.value)
            && (s <= b.recommended * 0.85 || s == b.min)
  {
    var b := CeilingBounds(recommended);
    BoundsAreOnGrid(recommended);
    var start := UncappedStart(recommended);
    CentsMonotone(b.min, start);
    GridPriceIs(MinInt(ToCents(start), ToCents(ceiling.value)));
    CappedPrice(start, ToCents(ceiling.value));
  }

  lemma CappedPrice(start: real, cap: int)
    requires start == FromCents(ToCents(start))
    ensures FromCents(MinInt(ToCents(start), cap)) <= start
    ensures cap >= ToCents(start) ==> FromCents(MinInt(ToCents(start), cap)) == start
  {}

  /** No higher price on the grid would do: one that is within 85% and the ceiling is at most the start. */
  lemma StartIsGreatest(recommended: Number, ceiling: Number, g: int)
    requires IsValidCeiling(ceiling, recommended) && OnGrid(g) && g <= ToCents(ceiling.value)
    requires FromCents(g) <= CeilingBounds(recommended).recommended * START_SHARE
    ensures g <= ToCents(StartingOffer(recommended, ceiling.value))
  {
    var b := CeilingBounds(recommended);
    var units := RecommendedUnits(recommended);
    DownIsGreatest(units, g);
    var start := UncappedStart(recommended);
    CentsMonotone(FromCents(g), start);
    CentsComeBack(g);
    CentsComeBack(MinInt(ToCents(start), ToCents(ceiling.value)));
  }

  // ---------------------------------------------------------------- the ladder

  /** The ladder's inputs in dollars; a missing top-up or floor counts as 0. */
  datatype Ladder = Ladder(start: real, ceiling: real, topUp: Option<real>, floor: Option<real>)

  function TopUpCents(l: Ladder): int {
    ToCents(l.topUp.GetOr(0.0))
  }

  function BaseCents(l: Ladder): int {
    MaxInt(ToCents(l.start), ToCents(l.floor.GetOr(0.0)))
  }

  /** Rounds are counted from 1, and fractions dropped. */
  function WholeRound(round: real): int {
    MaxInt(1, round.Floor)
  }

  function OfferForRound(l: Ladder, round: real): real {
    FromCents(MinInt(ToCents(l.ceiling), BaseCents(l) + (WholeRound(round) - 1) * UNIT_CENTS) + TopUpCents(l))
  }

  function OfferCents(l: Ladder, round: int): int {
    ToCents(OfferForRound(l, round as real))
  }

  lemma OfferCentsIs(l: Ladder, round: int)
    requires round >= 1
    ensures OfferCents(l, round) == MinInt(ToCents(l.ceiling), BaseCents(l) + (round - 1) * 50) + TopUpCents(l)
  {
    CentsComeBack(MinInt(ToCents(l.ceiling), BaseCents(l) + (round - 1) * UNIT_CENTS) + TopUpCents(l));
  }

  predicate GridLadder(l: Ladder) {
    OnGrid(ToCents(l.ceiling)) && OnGrid(BaseCents(l))
  }

  /** From one round to the next an offer on the grid stays or rises by 50c, and it never exceeds the ceiling plus
      the top-up. */
  lemma LadderClimbs(l: Ladder, round: int)
    requires GridLadder(l) && round >= 1
    ensures OfferCents(l, round) <= ToCents(l.ceiling) + TopUpCents(l)
    ensures OfferCents(l, round + 1) == OfferCents(l, round) || OfferCents(l, round + 1) == OfferCents(l, round) + 50
    ensures OnGrid(TopUpCents(l)) ==> OnGrid(OfferCents(l, round))
  {
    OfferCentsIs(l, round);
    OfferCentsIs(l, round + 1);
    RungClimbs(ToCents(l.ceiling), BaseCents(l), round);
  }

  lemma RungClimbs(ceiling: int, base: int, round: int)
    requires OnGrid(ceiling) && OnGrid(base)
    ensures var rung := MinInt(ceiling, base + (round - 1) * UNIT_CENTS);
            var next := MinInt(ceiling, base + round * UNIT_CENTS);
            rung <= ceiling && OnGrid(rung) && (next == rung || next == rung + 50)
  {
    var c, b := ceiling / 50, base / 50;
    assert ceiling == c * 50 && base == b * 50;
  }

  /** The first offer is the higher of start and floor, under the ceiling, and the top-up; no later one is below either
      of them. */
  lemma LadderStarts(l: Ladder, round: int)
    requires round >= 1
    ensures var first := OfferCents(l, 1) - TopUpCents(l);
            && first in [ToCents(l.ceiling), ToCents(l.start), ToCents(l.floor.GetOr(0.0))]
            && first <= ToCents(l.ceiling)
    ensures var offer := OfferCents(l, round) - TopUpCents(l);
            && (offer >= ToCents(l.start) || offer == ToCents(l.ceiling))
            && (offer >= ToCents(l.floor.GetOr(0.0)) || offer == ToCents(l.ceiling))
  {
    OfferCentsIs(l, 1);
    OfferCentsIs(l, round);
  }

  /** Any number counts as the whole round before it, and as the first one below that. */
  lemma RoundsAreCounted(l: Ladder, round: real, n: int)
    requires n >= 1 && (n as real <= round < (n + 1) as real || (round < 1.0 && n == 1))
    ensures OfferForRound(l, round) == OfferForRound(l, n as real)
  {
    WholeRoundIs(round, n);
    WholeRoundIs(n as real, n);
  }

  lemma WholeRoundIs(round: real, n: int)
    requires n >= 1 && (n as real <= round < (n + 1) as real || (round < 1.0 && n == 1))
    ensures WholeRound(round) == n
  {}

  /** Over all rounds the offer never falls, and it gains at most 50c a round. */
  lemma {:induction false} LadderNeverFalls(l: Ladder, first: nat, more: nat)
    requires GridLadder(l) && first >= 1
    ensures OfferCents(l, first) <= OfferCents(l, first + more) <= OfferCents(l, first) + more * 50
  {
    if more > 0 {
      LadderNeverFalls(l, first, more - 1);
      LadderClimbs(l, first + more - 1);
    }
  }

  /** The rounds it takes to climb the gap. */
  function RoundsToTop(l: Ladder): int {
    var gap := ToCents(l.ceiling) - BaseCents(l);
    if gap <= 0 then 1 else 1 + (gap + UNIT_CENTS - 1) / UNIT_CENTS
  }

  /** The offer is at the top exactly from the round fixed by the gap on. */
  lemma LadderReachesTopIff(l: Ladder, round: int)
    requires round >= 1
    ensures OfferCents(l, round) == ToCents(l.ceiling) + TopUpCents(l) <==> round >= RoundsToTop(l)
  {
    OfferCentsIs(l, round);
  }

  /** The customer's part of an accepted offer. */
  function CustomerDeliveryPart(offer: real, topUp: real): real {
    FromCents(MaxInt(0, ToCents(offer) - ToCents(topUp)))
  }

  /** Whatever the round and the shop's top-up, the customer never pays above the ceiling. */
  lemma CustomerWithinCeiling(l: Ladder, round: int)
    requires round >= 1 && ToCents(l.ceiling) >= 0
    ensures ToCents(CustomerDeliveryPart(OfferForRound(l, round as real), l.topUp.GetOr(0.0))) <= ToCents(l.ceiling)
    ensures BaseCents(l) >= 0 ==>
              ToCents(CustomerDeliveryPart(OfferForRound(l, round as real), l.topUp.GetOr(0.0))) + TopUpCents(l) == OfferCents(l, round)
  {
    OfferCentsIs(l, round);
    CentsComeBack(MaxInt(0, OfferCents(l, round) - TopUpCents(l)));
  }

  // ---------------------------------------------------------------- the order's money

  datatype CeilingMoney = CeilingMoney(deliveryFee: real, merchantDeliveryShare: Option<real>, customerTotal: real)

  function FeeCents(ladder: real, topUp: Option<real>): int {
    ToCents(ladder) + MaxInt(0, ToCents(topUp.GetOr(0.0)))
  }

  /** The venue's share in cents, capped by the fee and the goods. */
  function ShareCents(goods: real, ladder: real, topUp: Option<real>, venueFunded: bool): Option<int> {
    var fee := FeeCents(ladder, topUp);
    var raw := if venueFunded then fee else MaxInt(0, ToCents(topUp.GetOr(0.0)));
    if raw > 0 then Some(MinInt(MinInt(raw, fee), MaxInt(0, ToCents(goods)))) else None
  }

  function MoneyOf(goods: real, ladder: real, topUp: Option<real>, venueFunded: bool): CeilingMoney {
    var fee := FeeCents(ladder, topUp);
    var share := ShareCents(goods, ladder, topUp, venueFunded);
    CeilingMoney(FromCents(fee), if share.None? then None else Some(FromCents(share.value)),
                 FromCents(MaxInt(0, ToCents(goods)) + fee - share.GetOr(0)))
  }

  /** The rider gets the rung and the top-up; the customer pays the goods and what the venue leaves of that. The venue pays
      the whole of it when it funds deliveries, and else its top-up, as far as the goods go. */
  lemma CeilingSplit(goods: real, ladder: real, topUp: Option<real>, venueFunded: bool)
    requires ToCents(ladder) >= 0 && ToCents(goods) >= 0 && ToCents(topUp.GetOr(0.0)) >= 0
    ensures var m := MoneyOf(goods, ladder, topUp, venueFunded);
            var rung, added, value := FromCents(ToCents(ladder)), FromCents(ToCents(topUp.GetOr(0.0))), FromCents(ToCents(goods));
            var share := m.merchantDeliveryShare.GetOr(0.0);
            && m.deliveryFee == rung + added && m.customerTotal == value + m.deliveryFee - share
            && (venueFunded ==> share == MinReal(rung + added, value))
            && (!venueFunded ==> share == MinReal(added, value))
            && (m.merchantDeliveryShare.None? <==> if venueFunded then rung + added == 0.0 else added == 0.0)
  {
    var c, a, g := ToCents(ladder), ToCents(topUp.GetOr(0.0)), ToCents(goods);
    CentsOrder(c + a, g);
    CentsOrder(a, g);
    CentsOrder(c + a, 0);
    CentsOrder(a, 0);
  }

  function TopUpChoices(goods: real, topUpSoFar: real): seq<real> {
    Filtered(TOP_UPS_USD, ToCents(goods) - ToCents(topUpSoFar))
  }

  /** A top-up of 50c, $1 or $2 may be added as long as all of them stay within the goods. */
  lemma TopUpChoicesAre(goods: real, topUpSoFar: real, t: real)
    ensures t in TopUpChoices(goods, topUpSoFar) <==>
            (t == 0.5 || t == 1.0 || t == 2.0) && ToCents(topUpSoFar) + ToCents(t) <= ToCents(goods)
  {}

  function Filtered(choices: seq<real>, room: int): (r: seq<real>)
    ensures forall t :: t in r <==> t in choices && ToCents(t) <= room
  {
    if choices == [] then []
    else (if ToCents(choices[0]) <= room then [choices[0]] else []) + Filtered(choices[1..], room)
  }

  // ---------------------------------------------------------------- top-ups

  function Sum(ts: seq<real>): real {
    if ts == [] then 0.0 else Sum(ts[..|ts| - 1]) + ts[|ts| - 1]
  }

  /** Each top-up was among the choices when it was added. */
  ghost predicate Chosen(goods: real, ts: seq<real>) {
    ts == [] || (Chosen(goods, ts[..|ts| - 1]) && ts[|ts| - 1] in TopUpChoices(goods, Sum(ts[..|ts| - 1])))
  }

  lemma {:induction false} ChosenFits(goods: real, ts: seq<real>)
    requires Chosen(goods, ts) && ToCents(goods) >= 0
    ensures 0 <= ToCents(Sum(ts)) <= ToCents(goods) && Sum(ts) == FromCents(ToCents(Sum(ts)))
  {
    if ts != [] {
      var before := ts[..|ts| - 1];
      var t := ts[|ts| - 1];
      ChosenFits(goods, before);
      assert t in TOP_UPS_USD;
      CentsAdd(ToCents(Sum(before)), t);
    }
  }

  lemma CentsAdd(c: int, t: real)
    requires t == 0.5 || t == 1.0 || t == 2.0
    ensures ToCents(FromCents(c) + t) == c + ToCents(t) && ToCents(t) > 0
    ensures FromCents(c) + t == FromCents(c + ToCents(t))
  {}

  /** Top-ups drawn only from the choices never hit the cap: while the goods are unedited the shop's share is the
      whole of what it added, and the customer still pays goods plus ladder. */
  lemma ChosenTopUpsAreNotCapped(goods: real, ladder: real, ts: seq<real>)
    requires Chosen(goods, ts) && ToCents(goods) >= 0 && ToCents(ladder) >= 0 && ts != []
    ensures var m := MoneyOf(goods, ladder, Some(Sum(ts)), false);
            && m.merchantDeliveryShare == Some(Sum(ts))
            && m.customerTotal == FromCents(ToCents(goods) + ToCents(ladder))
  {
    ChosenFits(goods, ts);
    SumIsPositive(goods, ts);
  }

  lemma SumIsPositive(goods: real, ts: seq<real>)
    requires Chosen(goods, ts) && ToCents(goods) >= 0 && ts != []
    ensures ToCents(Sum(ts)) > 0
  {
    var before := ts[..|ts| - 1];
    ChosenFits(goods, before);
    CentsAdd(ToCents(Sum(before)), ts[|ts| - 1]);
  }
}
